/**
 * String helpers the scraper relies on through Python's `str` type:
 * `strip()` (used by BeautifulSoup's `get_text(strip=True)`), `lower()`,
 * the `in` substring test and `', '.join(...)`.
 */
module Text {

  /** Python's `str.isspace()` for one character: the characters `str.strip()` removes. */
  predicate IsSpace(c: char)
  {
    || ('\t' <= c <= '\r')
    || ('\U{1C}' <= c <= '\U{1F}')
    || c == ' ' || c == '\U{85}' || c == '\U{A0}' || c == '\U{1680}'
    || ('\U{2000}' <= c <= '\U{200A}')
    || c == '\U{2028}' || c == '\U{2029}' || c == '\U{202F}' || c == '\U{205F}' || c == '\U{3000}'
  }

  /** A string with no whitespace at either end. */
  predicate IsTrimmed(s: string)
  {
    s == [] || (!IsSpace(s[0]) && !IsSpace(s[|s| - 1]))
  }

  /** `s.lstrip()`: drops the whitespace at the start of `s`. */
  function StripStart(s: string): (r: string)
    ensures r != [] ==> !IsSpace(r[0])
  {
    if s != [] && IsSpace(s[0]) then StripStart(s[1..]) else s
  }

  /** StripStart drops a run of whitespace and keeps the rest of `s` unchanged. */
  lemma {:induction false} StripStartSpec(s: string)
    ensures |StripStart(s)| <= |s| && StripStart(s) == s[|s| - |StripStart(s)|..]
    ensures forall k :: 0 <= k < |s| - |StripStart(s)| ==> IsSpace(s[k])
  {
    if s != [] && IsSpace(s[0]) {
      StripStartSpec(s[1..]);
    }
  }

  /** `s.rstrip()`: drops the whitespace at the end of `s`. */
  function StripEnd(s: string): (r: string)
    ensures r != [] ==> !IsSpace(r[|r| - 1])
  {
    if s != [] && IsSpace(s[|s| - 1]) then StripEnd(s[..|s| - 1]) else s
  }

  /** StripEnd drops a run of whitespace and keeps the rest of `s` unchanged. */
  lemma {:induction false} StripEndSpec(s: string)
    ensures |StripEnd(s)| <= |s| && StripEnd(s) == s[..|StripEnd(s)|]
    ensures forall k :: |StripEnd(s)| <= k < |s| ==> IsSpace(s[k])
  {
    if s != [] && IsSpace(s[|s| - 1]) {
      StripEndSpec(s[..|s| - 1]);
    }
  }

  /** `r` sits at offset `i` of `s` with nothing but whitespace on either side. */
  predicate Framed(s: string, r: string, i: int)
  {
    && 0 <= i <= |s| - |r| && r == s[i..i + |r|]
    && (forall k :: 0 <= k < i ==> IsSpace(s[k]))
    && (forall k :: i + |r| <= k < |s| ==> IsSpace(s[k]))
  }

  /** `s.strip()`: drops the whitespace at both ends of `s`. */
  function Strip(s: string): (r: string)
    ensures IsTrimmed(r)
  {
    var a := StripStart(s);
    var r := StripEnd(a);
    StripEndSpec(a);
    assert r != [] ==> r[0] == a[0];
    r
  }

  /**
   * Strip keeps exactly the slice of `s` that remains once whitespace is
   * removed from both ends: the slice starts where StripStart's result starts.
   */
  lemma StripSpec(s: string)
    ensures Framed(s, Strip(s), |s| - |StripStart(s)|)
  {
    var a := StripStart(s);
    var r := StripEnd(a);
    StripStartSpec(s);
    StripEndSpec(a);
    var i := |s| - |a|;
    assert Strip(s) == r;
    assert r == s[i..i + |r|] by {
      assert a == s[i..] && r == a[..|r|];
    }
    forall k | i + |r| <= k < |s| ensures IsSpace(s[k]) {
      assert s[k] == a[k - i];
    }
  }

  /** Two trimmed strings concatenate to a trimmed string. */
  lemma TrimmedConcat(a: string, b: string)
    requires IsTrimmed(a) && IsTrimmed(b)
    ensures IsTrimmed(a + b)
  {
  }

  /** `c.lower()` on ASCII letters; every other character is left as it is. */
  function LowerChar(c: char): char
  {
    if 'A' <= c <= 'Z' then (c as int - 'A' as int + 'a' as int) as char else c
  }

  /** `s.lower()`, character by character (see LowerChar). */
  function Lower(s: string): (r: string)
    ensures |r| == |s|
  {
    if s == [] then [] else [LowerChar(s[0])] + Lower(s[1..])
  }

  /** Lower-casing leaves a string without ASCII capitals unchanged. */
  lemma {:induction false} LowerNoCapitals(s: string)
    requires forall i :: 0 <= i < |s| ==> !('A' <= s[i] <= 'Z')
    ensures Lower(s) == s
  {
    if s != [] {
      LowerNoCapitals(s[1..]);
    }
  }

  /** Lower-casing twice is lower-casing once. */
  lemma {:induction false} LowerIdempotent(s: string)
    ensures Lower(Lower(s)) == Lower(s)
  {
    if s != [] {
      LowerIdempotent(s[1..]);
    }
  }

  /** Python's `sub in s`: `sub` occurs as a contiguous run of `s`. */
  predicate Contains(s: string, sub: string)
    decreases |s|
  {
    |sub| <= |s| && (s[..|sub|] == sub || Contains(s[1..], sub))
  }

  /** `sub` occurs in `s` starting at index `i`. */
  predicate OccursAt(s: string, sub: string, i: int)
  {
    0 <= i <= |s| - |sub| && s[i..i + |sub|] == sub
  }

  /** Contains holds exactly when `sub` occurs at some index of `s`. */
  lemma {:induction false} ContainsAt(s: string, sub: string)
    ensures Contains(s, sub) <==> exists i :: OccursAt(s, sub, i)
    decreases |s|
  {
    if |sub| <= |s| && s[..|sub|] != sub {
      ContainsAt(s[1..], sub);
      if exists i :: OccursAt(s, sub, i) {
        var i :| OccursAt(s, sub, i);
        assert i != 0;
        assert OccursAt(s[1..], sub, i - 1);
      }
      if Contains(s[1..], sub) {
        var j :| OccursAt(s[1..], sub, j);
        assert OccursAt(s, sub, j + 1);
      }
    } else if |sub| <= |s| {
      assert OccursAt(s, sub, 0);
    } else {
      assert forall i :: !OccursAt(s, sub, i);
    }
  }

  /** A string that contains `sub` contains every prefix of `sub`. */
  lemma {:induction false} ContainsPrefix(s: string, sub: string, p: string)
    requires Contains(s, sub) && |p| <= |sub| && p == sub[..|p|]
    ensures Contains(s, p)
    decreases |s|
  {
    if s[..|sub|] == sub {
      assert s[..|p|] == p;
    } else {
      ContainsPrefix(s[1..], sub, p);
    }
  }

  /** `sep.join(parts)`. */
  function Join(parts: seq<string>, sep: string): (r: string)
    ensures |parts| == 1 ==> r == parts[0]
  {
    if |parts| == 0 then ""
    else if |parts| == 1 then parts[0]
    else parts[0] + sep + Join(parts[1..], sep)
  }

  /**
   * Joining one more part appends the separator and that part: `', '.join`
   * of the parts collected so far, extended in the order they were appended.
   */
  lemma {:induction false} JoinSnoc(parts: seq<string>, sep: string, x: string)
    requires parts != []
    ensures Join(parts + [x], sep) == Join(parts, sep) + sep + x
  {
    if |parts| == 1 {
      assert (parts + [x])[1..] == [x];
    } else {
      assert (parts + [x])[1..] == parts[1..] + [x];
      JoinSnoc(parts[1..], sep, x);
    }
  }

  /** Joining non-empty trimmed parts gives a trimmed string, whatever the separator. */
  lemma {:induction false} JoinTrimmed(parts: seq<string>, sep: string)
    requires forall i :: 0 <= i < |parts| ==> parts[i] != "" && IsTrimmed(parts[i])
    ensures IsTrimmed(Join(parts, sep))
  {
    if |parts| > 1 {
      JoinTrimmed(parts[1..], sep);
      var rest := Join(parts[1..], sep);
      assert rest != [] by {
        JoinNonEmpty(parts[1..], sep, 0);
      }
      assert Join(parts, sep) == parts[0] + (sep + rest);
    }
  }

  /** Joining at least one non-empty part gives a non-empty string. */
  lemma {:induction false} JoinNonEmpty(parts: seq<string>, sep: string, k: nat)
    requires k < |parts| && parts[k] != ""
    ensures Join(parts, sep) != ""
    decreases |parts|
  {
    if |parts| > 1 && k > 0 {
      JoinNonEmpty(parts[1..], sep, k - 1);
    }
  }
}
