/** The merge of freshly scraped records into the saved list (the `scrape`
    command, NovelSearch/cli.py:182-218) and the loop of merge_award_entries
    (NovelSearch/cli.py:135-159). Both key records by (title, year). */
module Merge {
  import opened Wrappers
  import opened Text
  import opened Novels

  /** [novel for novel in s if novel["year"] >= after], order kept. */
  function Since(s: seq<Novel>, after: int): (r: seq<Novel>)
    ensures forall n :: n in r <==> n in s && n.year >= after
  {
    if s == [] then []
    else
      var last := s[|s| - 1];
      Since(s[..|s| - 1], after) + (if last.year >= after then [last] else [])
  }

  /** The filter keeps order and duplicates: it works record by record. */
  lemma {:induction false} SinceAppend(a: seq<Novel>, b: seq<Novel>, after: int)
    ensures Since(a + b, after) == Since(a, after) + Since(b, after)
    decreases |b|
  {
    if b == [] {
      assert a + b == a;
    } else {
      var init, last := b[..|b| - 1], b[|b| - 1];
      var own := if last.year >= after then [last] else [];
      assert Since(a + b, after) == Since(a + init, after) + own by {
        assert (a + b)[..|a + b| - 1] == a + init;
        assert (a + b)[|a + b| - 1] == last;
      }
      assert Since(b, after) == Since(init, after) + own;
      SinceAppend(a, init, after);
    }
  }

  /** A single record is kept exactly when its year is at least `after`. */
  lemma SinceSingle(n: Novel, after: int)
    ensures Since([n], after) == if n.year >= after then [n] else []
  {
    assert [n][..0] == [];
  }

  function KeysOf(s: seq<Novel>): set<Key>
  {
    set n | n in s :: KeyOf(n)
  }

  lemma KeysOfSnoc(s: seq<Novel>, n: Novel)
    ensures KeysOf(s + [n]) == KeysOf(s) + {KeyOf(n)}
  {
    assert forall m :: m in s + [n] <==> m in s || m == n;
  }

  /** Every entry of m is stored under its own key. */
  predicate WellKeyed(m: map<Key, Novel>)
  {
    forall k :: k in m ==> KeyOf(m[k]) == k
  }

  // -------------------------------------------------- the existing records

  /** existing_map after the loop of NovelSearch/cli.py:195-197. */
  function Index(s: seq<Novel>): map<Key, Novel>
  {
    if s == [] then map[]
    else Index(s[..|s| - 1])[KeyOf(s[|s| - 1]) := s[|s| - 1]]
  }

  /** Index has one entry per key of s, stored under its own key, and every
      entry is one of the records of s. */
  lemma {:induction false} IndexKeys(s: seq<Novel>)
    ensures Index(s).Keys == KeysOf(s)
    ensures WellKeyed(Index(s))
    ensures forall k :: k in Index(s) ==> Index(s)[k] in s
  {
    if s != [] {
      var init := s[..|s| - 1];
      IndexKeys(init);
      assert s == init + [s[|s| - 1]];
      KeysOfSnoc(init, s[|s| - 1]);
    }
  }

  /** A later duplicate overwrites an earlier one: the record Index keeps for
      a key is the last record of s with that key. */
  lemma {:induction false} IndexLastWins(s: seq<Novel>, j: nat)
    requires j < |s|
    requires forall l :: j < l < |s| ==> KeyOf(s[l]) != KeyOf(s[j])
    ensures KeyOf(s[j]) in Index(s) && Index(s)[KeyOf(s[j])] == s[j]
  {
    if j < |s| - 1 {
      var init := s[..|s| - 1];
      assert init[j] == s[j];
      IndexLastWins(init, j);
    }
  }

  // ------------------------------------------------------ folding new data

  /** The record that replaces the saved one when a scraped record has the
      same key (NovelSearch/cli.py:205-212). */
  function Combine(prev: Novel, item: Novel): (r: Novel)
    ensures r.title == item.title && r.year == item.year && r.read == item.read
    ensures r.pov == (if prev.pov.Some? then prev.pov else item.pov)
    ensures prev.award == item.award ==> r.award == item.award
    ensures prev.award != item.award ==>
      || (StrLess(prev.award, item.award) && r.award == prev.award + "|" + item.award)
      || (StrLess(item.award, prev.award) && r.award == item.award + "|" + prev.award)
  {
    var pov := if prev.pov.Some? then prev.pov else item.pov;
    if item.award == prev.award then item.(pov := pov)
    else
      SortedJoinOrdered(item.award, prev.award);
      item.(pov := pov, award := SortedJoin(item.award, prev.award))
  }

  /** One turn of the loop of NovelSearch/cli.py:200-212. */
  function MergeInto(m: map<Key, Novel>, item: Novel): map<Key, Novel>
  {
    var key := KeyOf(item);
    if key !in m then m[key := item] else m[key := Combine(m[key], item)]
  }

  /** The whole loop of NovelSearch/cli.py:200-212. */
  function MergeAll(m: map<Key, Novel>, s: seq<Novel>): map<Key, Novel>
  {
    if s == [] then m else MergeInto(MergeAll(m, s[..|s| - 1]), s[|s| - 1])
  }

  /** existing_map once both loops have run. */
  function MergedMap(existing: seq<Novel>, scraped: seq<Novel>, after: int): map<Key, Novel>
  {
    MergeAll(Index(Since(existing, after)), Since(scraped, after))
  }

  /** The fold keeps every key it starts with, adds the keys of s and nothing
      else, and keeps each entry under its own key. */
  lemma {:induction false} MergeAllKeys(m: map<Key, Novel>, s: seq<Novel>)
    requires WellKeyed(m)
    ensures MergeAll(m, s).Keys == m.Keys + KeysOf(s)
    ensures WellKeyed(MergeAll(m, s))
  {
    if s != [] {
      var init := s[..|s| - 1];
      MergeAllKeys(m, init);
      assert s == init + [s[|s| - 1]];
      KeysOfSnoc(init, s[|s| - 1]);
    }
  }

  /** A POV already recorded for a key survives every later merge. */
  lemma {:induction false} MergeAllKeepsPov(m: map<Key, Novel>, s: seq<Novel>, k: Key)
    requires k in m && m[k].pov.Some?
    ensures k in MergeAll(m, s) && MergeAll(m, s)[k].pov == m[k].pov
  {
    if s != [] {
      MergeAllKeepsPov(m, s[..|s| - 1], k);
    }
  }

  /** A key that no new record has keeps its saved record unchanged. */
  lemma {:induction false} MergeAllUntouched(m: map<Key, Novel>, s: seq<Novel>, k: Key)
    requires k in m && k !in KeysOf(s)
    ensures k in MergeAll(m, s) && MergeAll(m, s)[k] == m[k]
  {
    if s != [] {
      var init := s[..|s| - 1];
      assert s == init + [s[|s| - 1]];
      KeysOfSnoc(init, s[|s| - 1]);
      MergeAllUntouched(m, init, k);
    }
  }

  /** Only `pov` is carried over: when the new records are unread, as the
      scraper makes them, every key they touch ends up unread, whatever the
      saved record said. */
  lemma {:induction false} MergeAllResetsRead(m: map<Key, Novel>, s: seq<Novel>, k: Key)
    requires forall n :: n in s ==> !n.read
    requires k in KeysOf(s)
    ensures k in MergeAll(m, s) && !MergeAll(m, s)[k].read
  {
    var init, last := s[..|s| - 1], s[|s| - 1];
    assert s == init + [last];
    KeysOfSnoc(init, last);
    if k != KeyOf(last) {
      MergeAllResetsRead(m, init, k);
    }
  }

  /** What the merge keeps: exactly the keys of the filtered saved and new
      records, each under its own key and from `after` on, with every saved
      POV kept. */
  lemma MergedMapProperties(existing: seq<Novel>, scraped: seq<Novel>, after: int)
    ensures MergedMap(existing, scraped, after).Keys == KeysOf(Since(existing, after)) + KeysOf(Since(scraped, after))
    ensures WellKeyed(MergedMap(existing, scraped, after))
    ensures forall k :: k in MergedMap(existing, scraped, after) ==> MergedMap(existing, scraped, after)[k].year >= after
    ensures forall k :: k in Index(Since(existing, after)) && Index(Since(existing, after))[k].pov.Some? ==>
      k in MergedMap(existing, scraped, after) && MergedMap(existing, scraped, after)[k].pov == Index(Since(existing, after))[k].pov
  {
    var old0, news := Since(existing, after), Since(scraped, after);
    IndexKeys(old0);
    MergeAllKeys(Index(old0), news);
    var m := MergedMap(existing, scraped, after);
    forall k | k in m ensures m[k].year >= after {
      if k in KeysOf(old0) {
        var n :| n in old0 && KeyOf(n) == k;
      } else {
        var n :| n in news && KeyOf(n) == k;
      }
    }
    forall k | k in Index(old0) && Index(old0)[k].pov.Some?
      ensures k in m && m[k].pov == Index(old0)[k].pov
    {
      MergeAllKeepsPov(Index(old0), news, k);
    }
  }

  // ------------------------------------------------------------ the sort

  /** No record of s sorts before an earlier one. */
  predicate Sorted(s: seq<Novel>)
  {
    forall i, j :: 0 <= i < j < |s| ==> !KeyLess(KeyOf(s[j]), KeyOf(s[i]))
  }

  /** Sorted with no key repeated. */
  predicate StrictlySorted(s: seq<Novel>)
  {
    forall i, j :: 0 <= i < j < |s| ==> KeyLess(KeyOf(s[i]), KeyOf(s[j]))
  }

  predicate DistinctKeys(s: seq<Novel>)
  {
    forall i, j :: 0 <= i < j < |s| ==> KeyOf(s[i]) != KeyOf(s[j])
  }

  /** x placed after every record of r whose key is not greater than its own. */
  function InsertByKey(x: Novel, r: seq<Novel>): seq<Novel>
  {
    if r == [] || KeyLess(KeyOf(x), KeyOf(r[0])) then [x] + r
    else [r[0]] + InsertByKey(x, r[1..])
  }

  /** merged_data.sort(key=lambda x: (x["year"], x["title"])), as an
      insertion sort; Python's sort is stable, and so is this one. */
  function SortByKey(s: seq<Novel>): seq<Novel>
  {
    if s == [] then []
    else InsertByKey(s[|s| - 1], SortByKey(s[..|s| - 1]))
  }

  /** Insertion adds exactly x. */
  lemma {:induction false} InsertByKeyPermutation(x: Novel, r: seq<Novel>)
    ensures multiset(InsertByKey(x, r)) == multiset(r) + multiset{x}
  {
    if r != [] && !KeyLess(KeyOf(x), KeyOf(r[0])) {
      InsertByKeyPermutation(x, r[1..]);
      assert r == [r[0]] + r[1..];
    }
  }

  /** The sort is a permutation of the merged records. */
  lemma {:induction false} SortByKeyPermutation(s: seq<Novel>)
    ensures multiset(SortByKey(s)) == multiset(s)
  {
    if s != [] {
      var init, last := s[..|s| - 1], s[|s| - 1];
      var q := SortByKey(init);
      assert SortByKey(s) == InsertByKey(last, q);
      assert multiset(q) == multiset(init) by {
        SortByKeyPermutation(init);
      }
      assert multiset(InsertByKey(last, q)) == multiset(q) + multiset{last} by {
        InsertByKeyPermutation(last, q);
      }
      assert multiset(s) == multiset(init) + multiset{last} by {
        assert s == init + [last];
      }
    }
  }

  lemma {:induction false} InsertByKeySorted(x: Novel, r: seq<Novel>)
    requires Sorted(r)
    ensures Sorted(InsertByKey(x, r))
  {
    if r != [] && !KeyLess(KeyOf(x), KeyOf(r[0])) {
      InsertByKeySorted(x, r[1..]);
      var rest := InsertByKey(x, r[1..]);
      InsertByKeyPermutation(x, r[1..]);
      forall y | y in rest ensures !KeyLess(KeyOf(y), KeyOf(r[0])) {
        assert y in multiset(rest);
        if y != x {
          var j :| 0 <= j < |r[1..]| && r[1..][j] == y;
          assert r[j + 1] == y;
        }
      }
    } else if r != [] {
      forall j | 0 <= j < |r| ensures !KeyLess(KeyOf(r[j]), KeyOf(x)) {
        if KeyLess(KeyOf(r[j]), KeyOf(x)) {
          KeyLessTransitive(KeyOf(r[j]), KeyOf(x), KeyOf(r[0]));
          KeyLessIrreflexive(KeyOf(r[0]));
        }
      }
    }
  }

  /** The sort neither adds nor drops a record. */
  lemma SortByKeyMembers(s: seq<Novel>)
    ensures forall n :: n in SortByKey(s) <==> n in s
  {
    SortByKeyPermutation(s);
    var q := SortByKey(s);
    forall n ensures n in q <==> n in s {
      assert n in q <==> n in multiset(q);
      assert n in s <==> n in multiset(s);
    }
  }

  /** The saved list is in ascending (year, title) order. */
  lemma {:induction false} SortByKeySorted(s: seq<Novel>)
    ensures Sorted(SortByKey(s))
  {
    if s != [] {
      SortByKeySorted(s[..|s| - 1]);
      InsertByKeySorted(s[|s| - 1], SortByKey(s[..|s| - 1]));
    }
  }

  lemma InsertByKeyMembers(x: Novel, r: seq<Novel>)
    ensures forall y :: y in InsertByKey(x, r) <==> y == x || y in r
  {
    InsertByKeyPermutation(x, r);
    var q := InsertByKey(x, r);
    forall y ensures y in q <==> y == x || y in r {
      assert y in q <==> y in multiset(q);
      assert y in r <==> y in multiset(r);
    }
  }

  /** A record whose key is below every key of a strictly ascending list can go in front. */
  lemma StrictCons(h: Novel, t: seq<Novel>)
    requires StrictlySorted(t)
    requires forall y :: y in t ==> KeyLess(KeyOf(h), KeyOf(y))
    ensures StrictlySorted([h] + t)
  {
    var q := [h] + t;
    forall i, j | 0 <= i < j < |q| ensures KeyLess(KeyOf(q[i]), KeyOf(q[j])) {
      assert q[j] == t[j - 1];
      if i > 0 {
        assert q[i] == t[i - 1];
      } else {
        assert t[j - 1] in t;
      }
    }
  }

  lemma {:induction false} InsertByKeyStrict(x: Novel, r: seq<Novel>)
    requires StrictlySorted(r) && KeyOf(x) !in KeysOf(r)
    ensures StrictlySorted(InsertByKey(x, r))
  {
    if r == [] {
      assert InsertByKey(x, r) == [x];
    } else if KeyLess(KeyOf(x), KeyOf(r[0])) {
      forall y | y in r ensures KeyLess(KeyOf(x), KeyOf(y)) {
        var j :| 0 <= j < |r| && r[j] == y;
        if j > 0 {
          KeyLessTransitive(KeyOf(x), KeyOf(r[0]), KeyOf(r[j]));
        }
      }
      StrictCons(x, r);
    } else {
      var tail := r[1..];
      assert tail == r[1..];
      assert StrictlySorted(tail) by {
        forall i, j | 0 <= i < j < |tail| ensures KeyLess(KeyOf(tail[i]), KeyOf(tail[j])) {
          assert tail[i] == r[i + 1] && tail[j] == r[j + 1];
        }
      }
      assert KeyOf(x) !in KeysOf(tail) by {
        assert forall n :: n in tail ==> n in r;
      }
      InsertByKeyStrict(x, tail);
      var rest := InsertByKey(x, tail);
      assert InsertByKey(x, r) == [r[0]] + rest;
      assert KeyOf(r[0]) != KeyOf(x) by {
        assert r[0] in r;
      }
      KeyLessTotal(KeyOf(x), KeyOf(r[0]));
      InsertByKeyMembers(x, tail);
      forall y | y in rest ensures KeyLess(KeyOf(r[0]), KeyOf(y)) {
        if y != x {
          var j :| 0 <= j < |tail| && tail[j] == y;
          assert r[j + 1] == y;
        }
      }
      StrictCons(r[0], rest);
    }
  }

  /** When no key repeats, the sorted list is strictly ascending. */
  lemma {:induction false} SortByKeyStrict(s: seq<Novel>)
    requires DistinctKeys(s)
    ensures StrictlySorted(SortByKey(s))
  {
    if s != [] {
      var init, last := s[..|s| - 1], s[|s| - 1];
      SortByKeyStrict(init);
      var q := SortByKey(init);
      SortByKeyPermutation(init);
      forall n | n in q ensures KeyOf(n) != KeyOf(last) {
        assert n in multiset(q);
        var j :| 0 <= j < |init| && init[j] == n;
        assert s[j] == n;
      }
      InsertByKeyStrict(last, q);
    }
  }

  // ---------------------------------------------------------- the command

  /** order lists the keys of m, each once. */
  ghost predicate IsOrderOf(order: seq<Key>, m: map<Key, Novel>)
  {
    && (forall a, b :: 0 <= a < b < |order| ==> order[a] != order[b])
    && (forall k :: k in m <==> k in order)
  }

  /** Python dict insertion order: the keys listed in `order`, followed by the
      keys of the records of s in the order in which they are first stored;
      storing under a key already present keeps its place. */
  function InsertionOrder(order: seq<Key>, s: seq<Novel>): seq<Key>
  {
    if s == [] then order
    else
      var o, k := InsertionOrder(order, s[..|s| - 1]), KeyOf(s[|s| - 1]);
      if k in o then o else o + [k]
  }

  /** Storing more records only appends keys: the order of the first i
      records is a prefix of the order of all of them, and `order` itself
      comes first. */
  lemma {:induction false} InsertionOrderPrefix(order: seq<Key>, s: seq<Novel>, i: nat)
    requires i <= |s|
    ensures InsertionOrder(order, s[..i]) <= InsertionOrder(order, s)
    ensures order <= InsertionOrder(order, s)
  {
    if i < |s| {
      var init := s[..|s| - 1];
      assert init[..i] == s[..i];
      InsertionOrderPrefix(order, init, i);
    } else {
      assert s[..i] == s;
      if s != [] {
        InsertionOrderPrefix(order, s[..|s| - 1], 0);
      }
    }
  }

  /** A key seen for the first time goes to the end of the order. */
  lemma InsertionOrderNewKey(order: seq<Key>, s: seq<Novel>, i: nat)
    requires i < |s| && KeyOf(s[i]) !in InsertionOrder(order, s[..i])
    ensures InsertionOrder(order, s[..i + 1]) == InsertionOrder(order, s[..i]) + [KeyOf(s[i])]
  {
    var p := s[..i + 1];
    assert p[..i] == s[..i] && p[i] == s[i];
  }

  /** The order follows first storage, not key order: ("b", 1) stored before
      ("a", 1) stays before it. */
  lemma InsertionOrderFirstStored(x: Novel, y: Novel)
    requires x.title == "b" && y.title == "a" && x.year == y.year
    ensures InsertionOrder([], [x, y]) == [KeyOf(x), KeyOf(y)]
  {
    assert [x, y][..1] == [x] && [x][..0] == [];
    assert InsertionOrder([], [x]) == [KeyOf(x)];
    assert KeyOf(y) !in [KeyOf(x)];
  }

  /** The loop of NovelSearch/cli.py:194-197: the saved records by key, a
      later duplicate overwriting an earlier one. */
  method IndexExisting(existingData: seq<Novel>) returns (existingMap: map<Key, Novel>, order: seq<Key>)
    ensures existingMap == Index(existingData)
    ensures order == InsertionOrder([], existingData)
    ensures IsOrderOf(order, existingMap)
  {
    existingMap, order := map[], [];
    var i := 0;
    while i < |existingData|
      invariant 0 <= i <= |existingData|
      invariant existingMap == Index(existingData[..i])
      invariant order == InsertionOrder([], existingData[..i])
      invariant IsOrderOf(order, existingMap)
    {
      assert existingData[..i + 1][..i] == existingData[..i];
      var item := existingData[i];
      var key := KeyOf(item);
      if key !in existingMap {
        order := order + [key];
      }
      existingMap := existingMap[key := item];
      i := i + 1;
    }
    assert existingData[..i] == existingData;
  }

  /** The loop of NovelSearch/cli.py:200-212: each new record replaces the
      entry under its key, keeping a saved POV and joining differing labels. */
  method MergeNew(m0: map<Key, Novel>, order0: seq<Key>, combinedNew: seq<Novel>)
    returns (existingMap: map<Key, Novel>, order: seq<Key>)
    requires IsOrderOf(order0, m0)
    ensures existingMap == MergeAll(m0, combinedNew)
    ensures order == InsertionOrder(order0, combinedNew)
    ensures IsOrderOf(order, existingMap)
  {
    existingMap, order := m0, order0;
    var j := 0;
    while j < |combinedNew|
      invariant 0 <= j <= |combinedNew|
      invariant existingMap == MergeAll(m0, combinedNew[..j])
      invariant order == InsertionOrder(order0, combinedNew[..j])
      invariant IsOrderOf(order, existingMap)
    {
      assert combinedNew[..j + 1][..j] == combinedNew[..j];
      var item := combinedNew[j];
      var key := KeyOf(item);
      if key !in existingMap {
        order := order + [key];
        existingMap := existingMap[key := item];
      } else {
        if existingMap[key].pov.Some? {
          item := item.(pov := existingMap[key].pov);
        }
        if item.award != existingMap[key].award {
          item := item.(award := SortedJoin(item.award, existingMap[key].award));
        }
        existingMap := existingMap[key := item];
      }
      j := j + 1;
    }
    assert combinedNew[..j] == combinedNew;
  }

  /** The data logic of the `scrape` command (NovelSearch/cli.py:182-218),
      given the two scraped lists and the saved list. */
  method Scrape(existing: seq<Novel>, hugo: seq<Novel>, nebula: seq<Novel>, after: int)
    returns (merged: seq<Novel>)
    ensures StrictlySorted(merged)
    ensures KeysOf(merged) == KeysOf(Since(existing, after)) + KeysOf(Since(hugo + nebula, after))
    ensures forall n :: n in merged ==> n.year >= after
    ensures forall n :: n in merged ==>
      KeyOf(n) in MergedMap(existing, hugo + nebula, after) && n == MergedMap(existing, hugo + nebula, after)[KeyOf(n)]
  {
    var combinedNew := Since(hugo + nebula, after);
    var existingData := Since(existing, after);
    var existingMap, order := IndexExisting(existingData);
    existingMap, order := MergeNew(existingMap, order, combinedNew);
    MergedMapProperties(existing, hugo + nebula, after);
    merged := SortValues(existingMap, order);
    forall n | n in merged ensures n.year >= after {
      assert KeyOf(n) in existingMap;
    }
  }

  /** list(existing_map.values()) sorted by (year, title). */
  method SortValues(m: map<Key, Novel>, order: seq<Key>) returns (merged: seq<Novel>)
    requires WellKeyed(m) && IsOrderOf(order, m)
    ensures StrictlySorted(merged)
    ensures KeysOf(merged) == m.Keys
    ensures forall n :: n in merged ==> KeyOf(n) in m && n == m[KeyOf(n)]
  {
    var mergedData := seq(|order|, k requires 0 <= k < |order| => m[order[k]]);
    assert forall k :: 0 <= k < |order| ==> mergedData[k] == m[order[k]] && KeyOf(mergedData[k]) == order[k];
    assert DistinctKeys(mergedData);
    SortByKeyStrict(mergedData);
    merged := SortByKey(mergedData);
    SortByKeyMembers(mergedData);
    assert KeysOf(mergedData) == m.Keys by {
      forall k | k in m ensures k in KeysOf(mergedData) {
        var a :| 0 <= a < |order| && order[a] == k;
        assert mergedData[a] in mergedData;
      }
    }
  }

  // ------------------------------------------------- merge_award_entries

  /** One duplicate folded into the first-seen record (NovelSearch/cli.py:148-155):
      differing labels are joined, and a non-null POV of the duplicate wins. */
  function AwardStep(existing: Novel, novel: Novel): (r: Novel)
    ensures r.title == existing.title && r.year == existing.year && r.read == existing.read
    ensures r.pov == (if novel.pov.Some? then novel.pov else existing.pov)
    ensures existing.award == novel.award ==> r.award == existing.award
    ensures existing.award != novel.award ==>
      || (StrLess(existing.award, novel.award) && r.award == existing.award + "|" + novel.award)
      || (StrLess(novel.award, existing.award) && r.award == novel.award + "|" + existing.award)
  {
    var pov := if novel.pov.Some? then novel.pov else existing.pov;
    if existing.award == novel.award then existing.(pov := pov)
    else
      SortedJoinOrdered(existing.award, novel.award);
      existing.(award := SortedJoin(existing.award, novel.award), pov := pov)
  }

  /** novel_map after the loop of NovelSearch/cli.py:142-156. */
  function FoldAwards(s: seq<Novel>): map<Key, Novel>
  {
    if s == [] then map[]
    else
      var m, n := FoldAwards(s[..|s| - 1]), s[|s| - 1];
      if KeyOf(n) !in m then m[KeyOf(n) := n] else m[KeyOf(n) := AwardStep(m[KeyOf(n)], n)]
  }

  /** The loop of merge_award_entries (NovelSearch/cli.py:141-156); the map
      the loop builds is the result, as the function's own last line
      returns nothing. */
  method MergeAwardEntries(novels: seq<Novel>) returns (novelMap: map<Key, Novel>)
    ensures novelMap == FoldAwards(novels)
  {
    novelMap := map[];
    var i := 0;
    while i < |novels|
      invariant 0 <= i <= |novels|
      invariant novelMap == FoldAwards(novels[..i])
    {
      assert novels[..i + 1][..i] == novels[..i];
      var novel := novels[i];
      var key := KeyOf(novel);
      if key !in novelMap {
        novelMap := novelMap[key := novel];
      } else {
        var existing := novelMap[key];
        if existing.award != novel.award {
          existing := existing.(award := SortedJoin(existing.award, novel.award));
        }
        if novel.pov.Some? {
          existing := existing.(pov := novel.pov);
        }
        novelMap := novelMap[key := existing];
      }
      i := i + 1;
    }
    assert novels[..i] == novels;
  }

  /** The promise of merge_award_entries: a novel listed once for the Hugo
      and once for the Nebula, in either order, comes out as "Hugo|Nebula". */
  lemma FoldAwardsHugoNebula(a: Novel, b: Novel)
    requires KeyOf(a) == KeyOf(b)
    requires (a.award == "Hugo" && b.award == "Nebula") || (a.award == "Nebula" && b.award == "Hugo")
    ensures KeyOf(a) in FoldAwards([a, b]) && FoldAwards([a, b])[KeyOf(a)].award == "Hugo|Nebula"
  {
    assert [a, b][..1] == [a] && [a][..0] == [];
    var m := FoldAwards([a]);
    assert FoldAwards([a][..0]) == map[];
    assert m == map[KeyOf(a) := a];
    assert FoldAwards([a, b]) == m[KeyOf(a) := AwardStep(a, b)];
    assert AwardStep(a, b).award == "Hugo|Nebula" by {
      assert StrLess("Hugo", "Nebula") by {
        assert "Hugo"[0] < "Nebula"[0];
      }
      assert !StrLess("Nebula", "Hugo");
      assert "Hugo" + "|" + "Nebula" == "Hugo|Nebula";
    }
  }

  /** One entry per key of the input, stored under its own key. */
  lemma {:induction false} FoldAwardsKeys(s: seq<Novel>)
    ensures FoldAwards(s).Keys == KeysOf(s)
    ensures WellKeyed(FoldAwards(s))
  {
    if s != [] {
      var init := s[..|s| - 1];
      FoldAwardsKeys(init);
      assert s == init + [s[|s| - 1]];
      KeysOfSnoc(init, s[|s| - 1]);
    }
  }

  /** The entry for a key keeps the title, year and read flag of the first
      record seen with that key. */
  lemma {:induction false} FoldAwardsFirstSeen(s: seq<Novel>, j: nat)
    requires j < |s|
    requires forall l :: 0 <= l < j ==> KeyOf(s[l]) != KeyOf(s[j])
    ensures KeyOf(s[j]) in FoldAwards(s)
    ensures var r := FoldAwards(s)[KeyOf(s[j])]; r.title == s[j].title && r.year == s[j].year && r.read == s[j].read
  {
    var init := s[..|s| - 1];
    if j == |s| - 1 {
      FoldAwardsKeys(init);
      assert KeyOf(s[j]) !in KeysOf(init);
    } else {
      assert forall l :: 0 <= l <= j ==> init[l] == s[l];
      FoldAwardsFirstSeen(init, j);
    }
  }

  /** The entry for a key has the POV of the last record with that key that
      has one. */
  lemma {:induction false} FoldAwardsLastPov(s: seq<Novel>, j: nat)
    requires j < |s| && s[j].pov.Some?
    requires forall l :: j < l < |s| && KeyOf(s[l]) == KeyOf(s[j]) ==> s[l].pov.None?
    ensures KeyOf(s[j]) in FoldAwards(s) && FoldAwards(s)[KeyOf(s[j])].pov == s[j].pov
  {
    var init := s[..|s| - 1];
    if j < |s| - 1 {
      assert init[j] == s[j];
      FoldAwardsLastPov(init, j);
    }
  }

  /** ... and no POV when none of those records has one. */
  lemma {:induction false} FoldAwardsNoPov(s: seq<Novel>, k: Key)
    requires k in KeysOf(s)
    requires forall n :: n in s && KeyOf(n) == k ==> n.pov.None?
    ensures k in FoldAwards(s) && FoldAwards(s)[k].pov.None?
  {
    var init, last := s[..|s| - 1], s[|s| - 1];
    assert s == init + [last];
    KeysOfSnoc(init, last);
    FoldAwardsKeys(init);
    if k in KeysOf(init) {
      FoldAwardsNoPov(init, k);
    }
  }
}
