/**
 * The string primitives the scraper relies on, as Python defines them for `str`:
 * `isspace`, `strip`, `lower`, the `in` substring test and `split` on a single
 * separator character.
 */
module Text {

  /** Python's `str.isspace()` for one character (also what `\s` matches in `re`). */
  predicate IsSpace(c: char)
  {
    || c == ' '
    || ('\t' <= c <= '\r')
    || ('\U{1C}' <= c <= '\U{1F}')
    || c == '\U{85}' || c == '\U{A0}' || c == '\U{1680}'
    || ('\U{2000}' <= c <= '\U{200A}')
    || c == '\U{2028}' || c == '\U{2029}' || c == '\U{202F}' || c == '\U{205F}' || c == '\U{3000}'
  }

  /** What `\d` matches, restricted to ASCII. */
  predicate IsDigit(c: char)
  {
    '0' <= c <= '9'
  }

  /** `str.lstrip()`: drops the leading whitespace and nothing else. */
  function TrimLeft(s: string): (r: string)
    ensures |r| <= |s| && r == s[|s| - |r|..]
    ensures forall i :: 0 <= i < |s| - |r| ==> IsSpace(s[i])
    ensures r != [] ==> !IsSpace(r[0])
    decreases |s|
  {
    if s != [] && IsSpace(s[0]) then TrimLeft(s[1..]) else s
  }

  /** `str.rstrip()`: drops the trailing whitespace and nothing else. */
  function TrimRight(s: string): (r: string)
    ensures |r| <= |s| && r == s[..|r|]
    ensures forall i :: |r| <= i < |s| ==> IsSpace(s[i])
    ensures r != [] ==> !IsSpace(r[|r| - 1])
    decreases |s|
  {
    if s != [] && IsSpace(s[|s| - 1]) then TrimRight(s[..|s| - 1]) else s
  }

  /** `str.strip()`. */
  function Trim(s: string): (r: string)
  {
    TrimRight(TrimLeft(s))
  }

  /** Taking a piece off the front and then off the back of `s` leaves a contiguous piece of `s`. */
  lemma PieceOfPiece(s: string, l: string, r: string, a: nat)
    requires a <= |s| && l == s[a..]
    requires |r| <= |l| && r == l[..|r|]
    requires forall i :: |r| <= i < |l| ==> IsSpace(l[i])
    ensures a + |r| <= |s| && r == s[a..a + |r|]
    ensures forall i :: a + |r| <= i < |s| ==> IsSpace(s[i])
  {
    forall i | a + |r| <= i < |s|
      ensures IsSpace(s[i])
    {
      assert s[i] == l[i - a];
    }
  }

  /**
   * What stripping leaves: a contiguous piece of `s`, everything cut off on either side
   * is whitespace, and the piece neither starts nor ends with whitespace.
   */
  lemma TrimShape(s: string)
    ensures |Trim(s)| <= |TrimLeft(s)| <= |s|
    ensures var a, r := |s| - |TrimLeft(s)|, Trim(s);
      && r == s[a..a + |r|]
      && (forall i :: 0 <= i < a ==> IsSpace(s[i]))
      && (forall i :: a + |r| <= i < |s| ==> IsSpace(s[i]))
      && (r != [] ==> !IsSpace(r[0]) && !IsSpace(r[|r| - 1]))
  {
    var l := TrimLeft(s);
    var r := TrimRight(l);
    PieceOfPiece(s, l, r, |s| - |l|);
  }

  lemma {:induction false} TrimLeftExact(s: string, a: nat)
    requires a <= |s|
    requires forall i :: 0 <= i < a ==> IsSpace(s[i])
    requires a < |s| ==> !IsSpace(s[a])
    ensures TrimLeft(s) == s[a..]
    decreases a
  {
    if a > 0 {
      TrimLeftExact(s[1..], a - 1);
      assert s[1..][a - 1..] == s[a..];
    }
  }

  lemma {:induction false} TrimRightExact(s: string, b: nat)
    requires b <= |s|
    requires forall i :: b <= i < |s| ==> IsSpace(s[i])
    requires b > 0 ==> !IsSpace(s[b - 1])
    ensures TrimRight(s) == s[..b]
    decreases |s| - b
  {
    if b < |s| {
      TrimRightExact(s[..|s| - 1], b);
      assert s[..|s| - 1][..b] == s[..b];
    }
  }

  lemma TrimRightOfSuffix(s: string, a: nat, b: nat)
    requires a <= b <= |s|
    requires forall i :: b <= i < |s| ==> IsSpace(s[i])
    requires b > a ==> !IsSpace(s[b - 1])
    ensures TrimRight(s[a..]) == s[a..b]
  {
    var l := s[a..];
    forall i | b - a <= i < |l|
      ensures IsSpace(l[i])
    {
      assert l[i] == s[a + i];
    }
    TrimRightExact(l, b - a);
    assert l[..b - a] == s[a..b];
  }

  /** Stripping gives exactly `s[a..b]` when only whitespace lies outside it and it has none at its ends. */
  lemma TrimExact(s: string, a: nat, b: nat)
    requires a <= b <= |s|
    requires forall i :: 0 <= i < a ==> IsSpace(s[i])
    requires forall i :: b <= i < |s| ==> IsSpace(s[i])
    requires a < b ==> !IsSpace(s[a]) && !IsSpace(s[b - 1])
    ensures Trim(s) == s[a..b]
  {
    if a < b {
      TrimLeftExact(s, a);
      TrimRightOfSuffix(s, a, b);
    } else {
      TrimLeftExact(s, |s|);
    }
  }

  /** Stripping twice is stripping once. */
  lemma TrimIdempotent(s: string)
    ensures Trim(Trim(s)) == Trim(s)
  {
  }

  lemma {:induction false} TrimRightAppendSpaces(a: string, b: string)
    requires forall i :: 0 <= i < |b| ==> IsSpace(b[i])
    ensures TrimRight(a + b) == TrimRight(a)
    decreases |b|
  {
    if b == [] {
      assert a + b == a;
    } else {
      var b' := b[..|b| - 1];
      assert (a + b)[..|a + b| - 1] == a + b';
      TrimRightAppendSpaces(a, b');
    }
  }

  lemma {:induction false} TrimLeftAppendSpaces(a: string, b: string)
    requires forall i :: 0 <= i < |b| ==> IsSpace(b[i])
    ensures TrimLeft(a + b) == if TrimLeft(a) == [] then [] else TrimLeft(a) + b
    decreases |a|
  {
    if a == [] {
      assert a + b == b;
      if b != [] {
        assert TrimLeft(b)[..0] == [];
      }
    } else if IsSpace(a[0]) {
      assert (a + b)[1..] == a[1..] + b;
      TrimLeftAppendSpaces(a[1..], b);
    } else {
    }
  }

  /** Whitespace appended to a string disappears when the string is stripped. */
  lemma TrimAppendSpaces(a: string, b: string)
    requires forall i :: 0 <= i < |b| ==> IsSpace(b[i])
    ensures Trim(a + b) == Trim(a)
  {
    TrimLeftAppendSpaces(a, b);
    if TrimLeft(a) != [] {
      TrimRightAppendSpaces(TrimLeft(a), b);
    }
  }

  /** Cutting a string before a whitespace-only stretch does not change the stripped result. */
  lemma TrimDropTrailingSpaces(s: string, i: nat, d: nat)
    requires i <= d <= |s|
    requires forall m :: i <= m < d ==> IsSpace(s[m])
    ensures Trim(s[..i]) == Trim(s[..d])
  {
    var a, b := s[..i], s[i..d];
    forall m | 0 <= m < |b|
      ensures IsSpace(b[m])
    {
      assert b[m] == s[i + m];
    }
    TrimAppendSpaces(a, b);
    assert s[..d] == a + b;
  }

  /** `str.lower()` for one character, restricted to ASCII letters. */
  function LowerChar(c: char): (d: char)
  {
    if 'A' <= c <= 'Z' then (c as int + 32) as char else c
  }

  /**
   * `str.lower()`: same length, no upper-case letter left, and every character equal to
   * the input's up to case.
   */
  function Lower(s: string): (r: string)
    ensures |r| == |s|
    ensures forall i :: 0 <= i < |r| ==> !('A' <= r[i] <= 'Z')
    ensures forall i :: 0 <= i < |s| ==> LowerChar(r[i]) == LowerChar(s[i])
  {
    seq(|s|, i requires 0 <= i < |s| => LowerChar(s[i]))
  }

  /**
   * `Lower(s)` is the only string of the same length without upper-case letters that agrees
   * with `s` up to case.
   */
  lemma LowerUnique(s: string, r: string)
    requires |r| == |s|
    requires forall i :: 0 <= i < |r| ==> !('A' <= r[i] <= 'Z')
    requires forall i :: 0 <= i < |s| ==> LowerChar(r[i]) == LowerChar(s[i])
    ensures r == Lower(s)
  {
    forall i | 0 <= i < |s|
      ensures r[i] == Lower(s)[i]
    {
      assert LowerChar(r[i]) == r[i];
    }
  }

  /** Lower-casing twice is lower-casing once. */
  lemma LowerIdempotent(s: string)
    ensures Lower(Lower(s)) == Lower(s)
  {
    LowerUnique(Lower(s), Lower(s));
  }

  /** Strings that agree up to case lower-case to the same string. */
  lemma LowerIgnoresCase(s: string, t: string)
    requires |s| == |t|
    requires forall i :: 0 <= i < |s| ==> LowerChar(s[i]) == LowerChar(t[i])
    ensures Lower(s) == Lower(t)
  {
    LowerUnique(t, Lower(s));
  }

  /** `needle` occurs in `hay` starting at index `i`. */
  predicate OccursAt(hay: string, needle: string, i: int)
  {
    0 <= i && i + |needle| <= |hay| && hay[i..i + |needle|] == needle
  }

  /** Python's `needle in hay` for strings, computed by scanning `hay` from the left. */
  predicate Contains(hay: string, needle: string)
    decreases |hay|
  {
    || (|needle| <= |hay| && hay[..|needle|] == needle)
    || (hay != [] && Contains(hay[1..], needle))
  }

  lemma {:induction false} ContainsOccurs(hay: string, needle: string) returns (i: nat)
    requires Contains(hay, needle)
    ensures OccursAt(hay, needle, i)
    decreases |hay|
  {
    if |needle| <= |hay| && hay[..|needle|] == needle {
      i := 0;
    } else {
      var j := ContainsOccurs(hay[1..], needle);
      assert hay[1..][j..j + |needle|] == hay[j + 1..j + 1 + |needle|];
      i := j + 1;
    }
  }

  lemma {:induction false} OccursContains(hay: string, needle: string, i: nat)
    requires OccursAt(hay, needle, i)
    ensures Contains(hay, needle)
    decreases i
  {
    if i > 0 {
      assert hay[1..][i - 1..i - 1 + |needle|] == hay[i..i + |needle|];
      OccursContains(hay[1..], needle, i - 1);
    }
  }

  /** The scan agrees with the definition of a substring occurrence. */
  lemma ContainsIff(hay: string, needle: string)
    ensures Contains(hay, needle) <==> exists i :: OccursAt(hay, needle, i)
  {
    if Contains(hay, needle) {
      var i := ContainsOccurs(hay, needle);
    }
    if i :| OccursAt(hay, needle, i) {
      OccursContains(hay, needle, i);
    }
  }

  /** Every character of a contained string occurs in the containing one. */
  lemma ContainsChar(hay: string, needle: string, c: char)
    requires Contains(hay, needle) && c in needle
    ensures c in hay
  {
    ContainsIff(hay, needle);
    var i :| OccursAt(hay, needle, i);
    var k :| 0 <= k < |needle| && needle[k] == c;
    assert hay[i..i + |needle|][k] == hay[i + k];
  }

  /** A string never contains a longer one. */
  lemma ContainsNoLonger(hay: string, needle: string)
    requires |needle| > |hay|
    ensures !Contains(hay, needle)
  {
    ContainsIff(hay, needle);
  }

  /** Every string contains itself. */
  lemma ContainsSelf(s: string)
    ensures Contains(s, s)
  {
    assert s[..|s|] == s;
  }

  /** `s.split(sep)`: cut at every separator; never empty, no piece holds the separator. */
  function Split(s: string, sep: char): (parts: seq<string>)
    ensures |parts| >= 1
    ensures forall k :: 0 <= k < |parts| ==> sep !in parts[k]
    decreases |s|
  {
    if s == [] then [[]]
    else
      var rest := Split(s[1..], sep);
      if s[0] == sep then [[]] + rest
      else [[s[0]] + rest[0]] + rest[1..]
  }

  /** There is one more piece than there are separators. */
  lemma {:induction false} SplitCount(s: string, sep: char)
    ensures |Split(s, sep)| == multiset(s)[sep] + 1
    decreases |s|
  {
    if s != [] {
      SplitCount(s[1..], sep);
      assert s == [s[0]] + s[1..];
    }
  }

  /** `sep.join(parts)`, the inverse of `Split`. */
  function Join(parts: seq<string>, sep: char): (s: string)
    decreases |parts|
  {
    if parts == [] then []
    else if |parts| == 1 then parts[0]
    else parts[0] + [sep] + Join(parts[1..], sep)
  }

  /** Joining the pieces of a split gives back the original string. */
  lemma {:induction false} JoinSplit(s: string, sep: char)
    ensures Join(Split(s, sep), sep) == s
    decreases |s|
  {
    if s != [] {
      JoinSplit(s[1..], sep);
      var rest := Split(s[1..], sep);
      if s[0] == sep {
        assert Split(s, sep) == [[]] + rest;
        assert ([[]] + rest)[1..] == rest;
      } else {
        assert Split(s, sep) == [[s[0]] + rest[0]] + rest[1..];
        if |rest| > 1 {
          assert ([[s[0]] + rest[0]] + rest[1..])[1..] == rest[1..];
        }
      }
    }
  }

  lemma {:induction false} SplitPrefix(a: string, b: string, sep: char)
    requires sep !in a
    ensures Split(a + b, sep) == [a + Split(b, sep)[0]] + Split(b, sep)[1..]
    decreases |a|
  {
    var parts := Split(b, sep);
    if a == [] {
      assert a + b == b;
      assert a + parts[0] == parts[0];
      assert parts == [parts[0]] + parts[1..];
    } else {
      var s := a + b;
      assert s[0] == a[0] && s[0] != sep;
      assert s[1..] == a[1..] + b;
      SplitPrefix(a[1..], b, sep);
      var rest := Split(s[1..], sep);
      assert rest == [a[1..] + parts[0]] + parts[1..];
      assert Split(s, sep) == [[s[0]] + rest[0]] + rest[1..];
      assert [a[0]] + (a[1..] + parts[0]) == a + parts[0];
    }
  }

  /** Splitting a join of separator-free pieces gives back the pieces. */
  lemma {:induction false} SplitJoin(parts: seq<string>, sep: char)
    requires |parts| >= 1
    requires forall k :: 0 <= k < |parts| ==> sep !in parts[k]
    ensures Split(Join(parts, sep), sep) == parts
    decreases |parts|
  {
    if |parts| == 1 {
      SplitPrefix(parts[0], [], sep);
      assert parts[0] + [] == parts[0];
    } else {
      var tail := Join(parts[1..], sep);
      SplitJoin(parts[1..], sep);
      assert Join(parts, sep) == parts[0] + ([sep] + tail);
      SplitPrefix(parts[0], [sep] + tail, sep);
      assert ([sep] + tail)[1..] == tail;
      assert Split([sep] + tail, sep) == [[]] + parts[1..];
      assert parts[0] + [] == parts[0];
      assert ([[]] + parts[1..])[1..] == parts[1..];
      assert [parts[0]] + parts[1..] == parts;
    }
  }
}
