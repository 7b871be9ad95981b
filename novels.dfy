/** The record the tool keeps for each nominated novel, its (title, year) key,
    and the orderings the tool uses: Python's string comparison and the
    (year, title) tuple comparison of the saved list. */
module Novels {
  import opened Wrappers
  import opened Text

  /** One entry of award_novels.json. `pov` is JSON null (None) or a string;
      the tool writes "first", "second" or "third" there. */
  datatype Novel = Novel(title: string, award: string, year: int, pov: Option<string>, read: bool)

  /** The dictionary key (title, year) under which entries are merged. */
  datatype Key = Key(title: string, year: int)

  function KeyOf(n: Novel): Key
  {
    Key(n.title, n.year)
  }

  /** Python's a < b on str: code point by code point, a proper prefix first. */
  predicate StrLess(a: string, b: string)
  {
    if a == [] then b != []
    else b != [] && (a[0] < b[0] || (a[0] == b[0] && StrLess(a[1..], b[1..])))
  }

  lemma {:induction false} StrLessIrreflexive(a: string)
    ensures !StrLess(a, a)
  {
    if a != [] { StrLessIrreflexive(a[1..]); }
  }

  lemma {:induction false} StrLessTransitive(a: string, b: string, c: string)
    requires StrLess(a, b) && StrLess(b, c)
    ensures StrLess(a, c)
  {
    if a != [] && a[0] == b[0] && b[0] == c[0] {
      StrLessTransitive(a[1..], b[1..], c[1..]);
    }
  }

  /** Two different strings are always ordered one way or the other. */
  lemma {:induction false} StrLessTotal(a: string, b: string)
    requires a != b
    ensures StrLess(a, b) || StrLess(b, a)
  {
    if a != [] && b != [] && a[0] == b[0] {
      assert a == [a[0]] + a[1..] && b == [b[0]] + b[1..];
      StrLessTotal(a[1..], b[1..]);
    }
  }

  /** Python's (a.year, a.title) < (b.year, b.title). */
  predicate KeyLess(a: Key, b: Key)
  {
    a.year < b.year || (a.year == b.year && StrLess(a.title, b.title))
  }

  lemma KeyLessIrreflexive(a: Key)
    ensures !KeyLess(a, a)
  {
    StrLessIrreflexive(a.title);
  }

  lemma KeyLessTransitive(a: Key, b: Key, c: Key)
    requires KeyLess(a, b) && KeyLess(b, c)
    ensures KeyLess(a, c)
  {
    if a.year == b.year == c.year {
      StrLessTransitive(a.title, b.title, c.title);
    }
  }

  lemma KeyLessTotal(a: Key, b: Key)
    requires a != b
    ensures KeyLess(a, b) || KeyLess(b, a)
  {
    if a.year == b.year {
      StrLessTotal(a.title, b.title);
    }
  }

  /** "|".join(sorted([a, b])). */
  function SortedJoin(a: string, b: string): string
  {
    if StrLess(b, a) then b + "|" + a else a + "|" + b
  }

  /** Of two different labels, the smaller comes first in the join. */
  lemma SortedJoinOrdered(a: string, b: string)
    requires a != b
    ensures || (StrLess(a, b) && SortedJoin(a, b) == a + "|" + b)
            || (StrLess(b, a) && SortedJoin(a, b) == b + "|" + a)
  {
    StrLessTotal(a, b);
  }

  /** The joined label does not depend on the order of two different labels. */
  lemma SortedJoinSymmetric(a: string, b: string)
    requires a != b
    ensures SortedJoin(a, b) == SortedJoin(b, a)
  {
    StrLessTotal(a, b);
    if StrLess(a, b) && StrLess(b, a) {
      StrLessTransitive(a, b, a);
      StrLessIrreflexive(a);
    }
  }

  /** The join is not a set union: a label already joined is joined again,
      so "Hugo|Nebula" merged with "Hugo" gives "Hugo|Hugo|Nebula". */
  lemma SortedJoinRepeatsLabels()
    ensures SortedJoin("Hugo|Nebula", "Hugo") == "Hugo|Hugo|Nebula"
  {
    var long, short := "Hugo|Nebula", "Hugo";
    assert StrLess(short[4..], long[4..]);
    assert StrLess(short[3..], long[3..]);
    assert StrLess(short[2..], long[2..]);
    assert StrLess(short[1..], long[1..]);
    assert StrLess(short, long);
  }
}
