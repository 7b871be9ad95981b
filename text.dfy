/** String primitives that the scraper and the prompt rely on: Python's notion
    of whitespace (str.isspace), strip(), split()[0], lower() and the
    substring test `sub in s`. */
module Text {
  import opened Wrappers

  /** The code points for which Python's str.isspace() holds; these are the
      separators of str.split() and the characters str.strip() removes. */
  predicate IsSpace(c: char)
  {
    || ('\t' <= c <= '\r')
    || ('\U{1C}' <= c <= ' ')
    || c == '\U{85}' || c == '\U{A0}' || c == '\U{1680}'
    || ('\U{2000}' <= c <= '\U{200A}')
    || c == '\U{2028}' || c == '\U{2029}' || c == '\U{202F}' || c == '\U{205F}'
    || c == '\U{3000}'
  }

  /** Leading whitespace removed. */
  function StripLeft(s: string): (r: string)
    ensures r == [] || !IsSpace(r[0])
    ensures |r| <= |s| && r == s[|s| - |r|..]
    ensures forall j :: 0 <= j < |s| - |r| ==> IsSpace(s[j])
  {
    if s != [] && IsSpace(s[0]) then StripLeft(s[1..]) else s
  }

  /** Trailing whitespace removed. */
  function StripRight(s: string): (r: string)
    ensures r == [] || !IsSpace(r[|r| - 1])
    ensures |r| <= |s| && r == s[..|r|]
    ensures forall j :: |r| <= j < |s| ==> IsSpace(s[j])
  {
    if s != [] && IsSpace(s[|s| - 1]) then StripRight(s[..|s| - 1]) else s
  }

  /** Python's s.strip() with no argument. */
  function Strip(s: string): string
  {
    StripRight(StripLeft(s))
  }

  /** A string that neither starts nor ends with whitespace is its own strip. */
  lemma StripUnchanged(s: string)
    requires s == [] || (!IsSpace(s[0]) && !IsSpace(s[|s| - 1]))
    ensures Strip(s) == s
  {
  }

  /** The longest prefix free of whitespace. */
  function Word(s: string): (r: string)
    ensures r <= s
    ensures forall c :: c in r ==> !IsSpace(c)
    ensures |r| < |s| ==> IsSpace(s[|r|])
  {
    if s == [] || IsSpace(s[0]) then [] else [s[0]] + Word(s[1..])
  }

  /** w occurs in s at p with only whitespace before it and whitespace or
      the end of s after it. */
  predicate FirstWordAt(s: string, p: int, w: string)
  {
    && 0 <= p && p + |w| <= |s|
    && (forall j :: 0 <= j < p ==> IsSpace(s[j]))
    && s[p..p + |w|] == w
    && (p + |w| == |s| || IsSpace(s[p + |w|]))
  }

  /** The word at the front of t, where t is s from p on with only whitespace
      before p, is the first word of s. */
  lemma WordAfterSpaces(s: string, t: string, p: nat)
    requires p + |t| == |s|
    requires forall k :: 0 <= k < |t| ==> t[k] == s[p + k]
    requires forall j :: 0 <= j < p ==> IsSpace(s[j])
    ensures FirstWordAt(s, p, Word(t))
  {
    var w := Word(t);
    assert w <= t;
    forall k | 0 <= k < |w|
      ensures s[p..p + |w|][k] == w[k]
    {
      assert w[k] == t[k];
    }
  }

  /** Python's s.split()[0]: None where split() returns an empty list, which
      is where indexing it raises IndexError; otherwise the first maximal run
      of non-whitespace characters of s. */
  function FirstToken(s: string): (r: Option<string>)
    ensures r.None? <==> forall c :: c in s ==> IsSpace(c)
    ensures r.Some? ==> r.value != [] && forall c :: c in r.value ==> !IsSpace(c)
    ensures r.Some? ==> FirstWordAt(s, |s| - |StripLeft(s)|, r.value)
  {
    var t := StripLeft(s);
    if t == [] then
      StripLeftEmpty(s);
      None
    else
      StripLeftFirstWord(s);
      Some(Word(t))
  }

  /** Nothing is left after the leading whitespace only when s is all whitespace. */
  lemma StripLeftEmpty(s: string)
    requires StripLeft(s) == []
    ensures forall c :: c in s ==> IsSpace(c)
  {
    forall c | c in s ensures IsSpace(c) {
      var j :| 0 <= j < |s| && s[j] == c;
    }
  }

  /** What is left after the leading whitespace starts with a character of
      s that is not whitespace, and its word is the first word of s. */
  lemma StripLeftFirstWord(s: string)
    requires StripLeft(s) != []
    ensures StripLeft(s)[0] in s && !IsSpace(StripLeft(s)[0])
    ensures FirstWordAt(s, |s| - |StripLeft(s)|, Word(StripLeft(s)))
  {
    var t := StripLeft(s);
    var p := |s| - |t|;
    SuffixAt(s, t, p);
    assert t[0] == s[p];
    WordAfterSpaces(s, t, p);
  }

  /** The characters of the suffix of s from p on, one by one. */
  lemma SuffixAt(s: string, t: string, p: nat)
    requires p <= |s| && t == s[p..]
    ensures |t| == |s| - p
    ensures forall k :: 0 <= k < |t| ==> t[k] == s[p + k]
  {
  }

  /** ASCII case mapping of one character. */
  function LowerChar(c: char): char
  {
    if 'A' <= c <= 'Z' then (c as int + 32) as char else c
  }

  /** Python's s.lower(), restricted to the ASCII letters. */
  function Lower(s: string): (r: string)
    ensures |r| == |s|
    // Element access only, stated for the solver; it adds no property.
    ensures forall j :: 0 <= j < |s| ==> r[j] == LowerChar(s[j])
  {
    seq(|s|, j requires 0 <= j < |s| => LowerChar(s[j]))
  }

  /** Python's `sub in s` on two strings: sub occurs somewhere in s. */
  predicate Contains(s: string, sub: string)
    decreases |s|
  {
    sub <= s || (s != [] && Contains(s[1..], sub))
  }

  /** sub occurs in s starting at index i. */
  predicate OccursAt(s: string, sub: string, i: int)
  {
    0 <= i <= |s| - |sub| && s[i..i + |sub|] == sub
  }

  /** Contains agrees with "sub occurs at some index of s", in both directions. */
  lemma {:induction false} ContainsIff(s: string, sub: string)
    ensures Contains(s, sub) <==> exists i :: OccursAt(s, sub, i)
    decreases |s|
  {
    if sub <= s {
      assert OccursAt(s, sub, 0);
    } else if s == [] {
    } else {
      ContainsIff(s[1..], sub);
      if Contains(s[1..], sub) {
        var i :| OccursAt(s[1..], sub, i);
        assert s[i + 1..i + 1 + |sub|] == s[1..][i..i + |sub|];
        assert OccursAt(s, sub, i + 1);
      }
      if i :| OccursAt(s, sub, i) {
        assert i != 0;
        assert s[1..][i - 1..i - 1 + |sub|] == s[i..i + |sub|];
        assert OccursAt(s[1..], sub, i - 1);
      }
    }
  }

  /** Python's s.replace(c, "") for a one-character pattern. */
  function Remove(s: string, c: char): (r: string)
    ensures c !in r
    ensures forall d :: d != c ==> (d in r <==> d in s)
    ensures |r| <= |s|
  {
    if s == [] then [] else (if s[0] == c then [] else [s[0]]) + Remove(s[1..], c)
  }

  /** Removing c drops every occurrence of c and keeps every other
      character as often as it occurs. */
  lemma {:induction false} RemoveCounts(s: string, c: char)
    ensures multiset(Remove(s, c)) == multiset(s)[c := 0]
  {
    if s != [] {
      RemoveCounts(s[1..], c);
      assert multiset(s) == multiset{s[0]} + multiset(s[1..]) by {
        assert s == [s[0]] + s[1..];
      }
      if s[0] == c {
        assert multiset(s)[c := 0] == multiset(s[1..])[c := 0];
      } else {
        assert multiset(s)[c := 0] == multiset{s[0]} + multiset(s[1..])[c := 0];
      }
    }
  }

  lemma {:induction false} RemoveAppend(a: string, b: string, c: char)
    ensures Remove(a + b, c) == Remove(a, c) + Remove(b, c)
  {
    if a != [] {
      assert (a + b)[1..] == a[1..] + b;
      RemoveAppend(a[1..], b, c);
    } else {
      assert a + b == b;
    }
  }
}
