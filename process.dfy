/** The data logic of the `process` command (NovelSearch/cli.py:224-290):
    the year-descending order, the search for the next record without a POV,
    the decoding of one typed answer and the update it makes. */
module Process {
  import opened Wrappers
  import opened Text
  import opened Novels

  // ------------------------------------------------------------- the order

  /** No record is from a later year than one before it. */
  predicate YearDescending(s: seq<Novel>)
  {
    forall i, j :: 0 <= i < j < |s| ==> s[i].year >= s[j].year
  }

  /** x placed after every record of r from its own year or later. */
  function InsertDesc(x: Novel, r: seq<Novel>): seq<Novel>
  {
    if r == [] || r[0].year < x.year then [x] + r
    else [r[0]] + InsertDesc(x, r[1..])
  }

  /** all_novels.sort(key=lambda x: x["year"], reverse=True) (NovelSearch/cli.py:240),
      as an insertion sort. */
  function SortByYearDesc(s: seq<Novel>): seq<Novel>
  {
    if s == [] then []
    else InsertDesc(s[|s| - 1], SortByYearDesc(s[..|s| - 1]))
  }

  /** Insertion adds exactly x. */
  lemma {:induction false} InsertDescPermutation(x: Novel, r: seq<Novel>)
    ensures multiset(InsertDesc(x, r)) == multiset(r) + multiset{x}
  {
    if r != [] && r[0].year >= x.year {
      InsertDescPermutation(x, r[1..]);
      assert r == [r[0]] + r[1..];
    }
  }

  /** The year sort is a permutation of the saved list. */
  lemma {:induction false} SortByYearDescPermutation(s: seq<Novel>)
    ensures multiset(SortByYearDesc(s)) == multiset(s)
  {
    if s != [] {
      var init, last := s[..|s| - 1], s[|s| - 1];
      var q := SortByYearDesc(init);
      assert SortByYearDesc(s) == InsertDesc(last, q);
      assert multiset(q) == multiset(init) by {
        SortByYearDescPermutation(init);
      }
      assert multiset(InsertDesc(last, q)) == multiset(q) + multiset{last} by {
        InsertDescPermutation(last, q);
      }
      assert multiset(s) == multiset(init) + multiset{last} by {
        assert s == init + [last];
      }
    }
  }

  lemma {:induction false} InsertDescSorted(x: Novel, r: seq<Novel>)
    requires YearDescending(r)
    ensures YearDescending(InsertDesc(x, r))
  {
    if r != [] && r[0].year >= x.year {
      InsertDescSorted(x, r[1..]);
      var rest := InsertDesc(x, r[1..]);
      InsertDescPermutation(x, r[1..]);
      forall y | y in rest ensures r[0].year >= y.year {
        assert y in multiset(rest);
        if y != x {
          var j :| 0 <= j < |r[1..]| && r[1..][j] == y;
          assert r[j + 1] == y;
        }
      }
    }
  }

  /** The processing order is most recent year first. */
  lemma {:induction false} SortByYearDescSorted(s: seq<Novel>)
    ensures YearDescending(SortByYearDesc(s))
  {
    if s != [] {
      SortByYearDescSorted(s[..|s| - 1]);
      InsertDescSorted(s[|s| - 1], SortByYearDesc(s[..|s| - 1]));
    }
  }

  /** The records of s from year y, in their order in s. */
  function OfYear(s: seq<Novel>, y: int): seq<Novel>
  {
    if s == [] then [] else Own(s[0], y) + OfYear(s[1..], y)
  }

  /** [n] when n is from year y, [] otherwise. */
  function Own(n: Novel, y: int): seq<Novel>
  {
    if n.year == y then [n] else []
  }

  lemma {:induction false} OfYearAppend(a: seq<Novel>, b: seq<Novel>, y: int)
    ensures OfYear(a + b, y) == OfYear(a, y) + OfYear(b, y)
  {
    if a == [] {
      assert a + b == b;
    } else {
      assert (a + b)[0] == a[0] && (a + b)[1..] == a[1..] + b;
      OfYearAppend(a[1..], b, y);
    }
  }

  lemma {:induction false} OfYearNone(s: seq<Novel>, y: int)
    requires forall n :: n in s ==> n.year != y
    ensures OfYear(s, y) == []
  {
    if s != [] {
      assert s[0] in s;
      OfYearNone(s[1..], y);
    }
  }

  lemma DescendingTail(r: seq<Novel>)
    requires r != [] && YearDescending(r)
    ensures YearDescending(r[1..])
    ensures forall n :: n in r ==> n.year <= r[0].year
  {
    var rest := r[1..];
    forall i, j | 0 <= i < j < |rest| ensures rest[i].year >= rest[j].year {
      assert rest[i] == r[i + 1] && rest[j] == r[j + 1];
    }
    forall n | n in r ensures n.year <= r[0].year {
      var j :| 0 <= j < |r| && r[j] == n;
    }
  }

  lemma {:induction false} InsertDescOfYear(x: Novel, r: seq<Novel>, y: int)
    requires YearDescending(r)
    ensures OfYear(InsertDesc(x, r), y) == OfYear(r, y) + Own(x, y)
  {
    if r == [] {
      assert InsertDesc(x, r) == [x];
      assert [x][1..] == [];
    } else if r[0].year < x.year {
      var q := [x] + r;
      assert InsertDesc(x, r) == q && q[0] == x && q[1..] == r;
      if x.year == y {
        assert OfYear(r, y) == [] by {
          DescendingTail(r);
          OfYearNone(r, y);
        }
      }
    } else {
      var rest := r[1..];
      assert YearDescending(rest) by {
        DescendingTail(r);
      }
      var ins := InsertDesc(x, rest);
      var q := [r[0]] + ins;
      assert InsertDesc(x, r) == q && q[0] == r[0] && q[1..] == ins;
      InsertDescOfYear(x, rest, y);
      assert Own(r[0], y) + (OfYear(rest, y) + Own(x, y)) == (Own(r[0], y) + OfYear(rest, y)) + Own(x, y);
    }
  }

  /** The sort is stable: the records of any one year keep their order. */
  lemma OfYearSnoc(init: seq<Novel>, last: Novel, y: int)
    ensures OfYear(init + [last], y) == OfYear(init, y) + Own(last, y)
  {
    OfYearAppend(init, [last], y);
    assert [last][1..] == [];
    assert OfYear([last], y) == Own(last, y) + [];
  }

  lemma {:induction false} SortByYearDescStable(s: seq<Novel>, y: int)
    ensures OfYear(SortByYearDesc(s), y) == OfYear(s, y)
  {
    if s != [] {
      var init, last := s[..|s| - 1], s[|s| - 1];
      var sorted := SortByYearDesc(init);
      var q := InsertDesc(last, sorted);
      assert SortByYearDesc(s) == q;
      SortByYearDescStable(init, y);
      SortByYearDescSorted(init);
      InsertDescOfYear(last, sorted, y);
      assert s == init + [last];
      OfYearSnoc(init, last, y);
    }
  }

  // ------------------------------------------------------- the next record

  /** `not novel["pov"]`: the POV is null or the empty string. */
  predicate Unannotated(n: Novel)
  {
    n.pov.None? || n.pov.value == ""
  }

  /** The search of NovelSearch/cli.py:244-248: the first record without a POV. */
  method FindNext(novels: seq<Novel>) returns (idx: Option<nat>)
    ensures idx.Some? ==> idx.value < |novels| && Unannotated(novels[idx.value])
    ensures idx.Some? ==> forall j :: 0 <= j < idx.value ==> !Unannotated(novels[j])
    ensures idx.None? ==> forall j :: 0 <= j < |novels| ==> !Unannotated(novels[j])
  {
    idx := None;
    var i := 0;
    while i < |novels|
      invariant 0 <= i <= |novels|
      invariant forall j :: 0 <= j < i ==> !Unannotated(novels[j])
    {
      if Unannotated(novels[i]) {
        idx := Some(i);
        break;
      }
      i := i + 1;
    }
  }

  // ------------------------------------------------------------ the answer

  /** One typed answer, once decoded (NovelSearch/cli.py:262-285). */
  datatype Answer = Quit | Invalid | Assign(pov: string, read: bool)

  /** The POV each accepted digit stands for. */
  function PovName(d: char): string
  {
    if d == '1' then "first" else if d == '2' then "second" else if d == '3' then "third" else ""
  }

  /** Decoding of the typed line: stripped and lower-cased, "quit" and "exit"
      end the session; otherwise the line is read iff it has an 'r', and
      with the 'r's gone it must be exactly one of the digits 1, 2, 3. */
  function Decode(line: string): (a: Answer)
    ensures a.Assign? ==> a.pov in ["first", "second", "third"]
  {
    var userInput := Lower(Strip(line));
    if userInput == "quit" || userInput == "exit" then Quit
    else
      var isRead := 'r' in userInput;
      var povInput := Remove(userInput, 'r');
      if povInput == "1" then Assign("first", isRead)
      else if povInput == "2" then Assign("second", isRead)
      else if povInput == "3" then Assign("third", isRead)
      else Invalid
  }

  lemma {:induction false} RemoveOnly(s: string, c: char)
    requires forall d :: d in s ==> d == c
    ensures Remove(s, c) == []
  {
    if s != [] {
      assert s[0] in s;
      assert forall d :: d in s[1..] ==> d in s;
      RemoveOnly(s[1..], c);
    }
  }

  /** Decoding of a line whose normal form, with the 'r's removed, is one digit. */
  lemma DecodeOneDigit(line: string, t: string, d: char, read: bool)
    requires d == '1' || d == '2' || d == '3'
    requires Lower(Strip(line)) == t && t != "quit" && t != "exit"
    requires Remove(t, 'r') == [d]
    requires read == ('r' in t)
    ensures Decode(line) == Assign(PovName(d), read)
  {
  }

  /** Every character of a string of 'r's around one digit is 'r' or the digit. */
  lemma DigitAmongRsChars(before: string, d: char, after: string)
    requires forall c :: c in before ==> c == 'r'
    requires forall c :: c in after ==> c == 'r'
    ensures var t := before + [d] + after;
      forall j :: 0 <= j < |t| ==> t[j] == 'r' || t[j] == d
  {
    var t := before + [d] + after;
    forall j | 0 <= j < |t| ensures t[j] == 'r' || t[j] == d {
      if j < |before| {
        assert t[j] == before[j] && before[j] in before;
      } else if j > |before| {
        assert t[j] == after[j - |before| - 1] && after[j - |before| - 1] in after;
      }
    }
  }

  /** A string of 'r's and one digit is its own stripped, lower-cased form. */
  lemma RsAndDigitNormal(t: string, d: char)
    requires |t| > 0 && (d == '1' || d == '2' || d == '3')
    requires forall j :: 0 <= j < |t| ==> t[j] == 'r' || t[j] == d
    ensures Lower(Strip(t)) == t
  {
    assert !IsSpace(t[0]) && !IsSpace(t[|t| - 1]);
    StripUnchanged(t);
    var u := Lower(t);
    forall j | 0 <= j < |t| ensures u[j] == t[j] {
      assert LowerChar(t[j]) == t[j];
    }
    assert u == t;
  }

  lemma RemoveRsAroundDigit(before: string, d: char, after: string)
    requires forall c :: c in before ==> c == 'r'
    requires forall c :: c in after ==> c == 'r'
    requires d != 'r'
    ensures Remove(before + [d] + after, 'r') == [d]
  {
    RemoveAppend(before + [d], after, 'r');
    RemoveAppend(before, [d], 'r');
    RemoveOnly(before, 'r');
    RemoveOnly(after, 'r');
    assert Remove([d], 'r') == [d] + Remove([], 'r');
  }

  lemma HasRAroundDigit(before: string, d: char, after: string)
    requires forall c :: c in before ==> c == 'r'
    requires forall c :: c in after ==> c == 'r'
    requires d != 'r'
    ensures ('r' in before + [d] + after) <==> |before| + |after| > 0
  {
    var t := before + [d] + after;
    if |before| > 0 {
      assert t[0] == before[0] && before[0] in before;
    } else if |after| > 0 {
      assert t[|t| - 1] == after[|after| - 1] && after[|after| - 1] in after;
    } else {
      assert t == [d];
    }
  }

  /** What decoding needs to know about 'r's around one digit. */
  lemma DigitAmongRs(before: string, d: char, after: string, t: string)
    requires forall c :: c in before ==> c == 'r'
    requires forall c :: c in after ==> c == 'r'
    requires d == '1' || d == '2' || d == '3'
    requires t == before + [d] + after
    ensures Lower(Strip(t)) == t
    ensures t != "quit" && t != "exit"
    ensures Remove(t, 'r') == [d]
    ensures ('r' in t) == (|before| + |after| > 0)
  {
    assert Remove(t, 'r') == [d] by {
      RemoveRsAroundDigit(before, d, after);
    }
    assert ('r' in t) == (|before| + |after| > 0) by {
      HasRAroundDigit(before, d, after);
    }
    assert t[0] != 'q' && t[0] != 'e' && Lower(Strip(t)) == t by {
      DigitAmongRsChars(before, d, after);
      RsAndDigitNormal(t, d);
    }
    assert "quit"[0] == 'q' && "exit"[0] == 'e';
  }

  /** A digit 1, 2 or 3 with any number of 'r's before and after it gives
      that digit's POV, read exactly when there is at least one 'r':
      "1", "1r" and "r1" all give "first". */
  lemma DecodeDigit(before: string, d: char, after: string)
    requires forall c :: c in before ==> c == 'r'
    requires forall c :: c in after ==> c == 'r'
    requires d == '1' || d == '2' || d == '3'
    ensures Decode(before + [d] + after) == Assign(PovName(d), |before| + |after| > 0)
  {
    var t := before + [d] + after;
    DigitAmongRs(before, d, after, t);
    DecodeOneDigit(t, t, d, |before| + |after| > 0);
  }

  lemma DecodeExamples()
    ensures Decode("1") == Assign("first", false)
    ensures Decode("1r") == Assign("first", true)
    ensures Decode("r1") == Assign("first", true)
  {
    assert "" + ['1'] + "" == "1";
    assert "" + ['1'] + "r" == "1r";
    assert "r" + ['1'] + "" == "r1";
    DecodeDigit("", '1', "");
    DecodeDigit("", '1', "r");
    DecodeDigit("r", '1', "");
  }

  /** "quit" and "exit", in any case and with surrounding blanks, end the session. */
  lemma DecodeQuit(line: string)
    requires Lower(Strip(line)) == "quit" || Lower(Strip(line)) == "exit"
    ensures Decode(line) == Quit
  {
  }

  /** A non-quit answer that is not one of the digits once its 'r's are gone is invalid. */
  lemma DecodeNotDigit(line: string, t: string)
    requires Lower(Strip(line)) == t && t != "quit" && t != "exit"
    requires Remove(t, 'r') != "1" && Remove(t, 'r') != "2" && Remove(t, 'r') != "3"
    ensures Decode(line) == Invalid
  {
  }

  /** An answer that holds any character other than 'r', '1', '2' and '3'
      (once stripped and lower-cased), and is not "quit" or "exit", is
      invalid; so is one that does not leave exactly one character once its
      'r's are gone. */
  lemma DecodeInvalid(line: string)
    requires var t := Lower(Strip(line));
      && t != "quit" && t != "exit"
      && ((exists c :: c in t && c != 'r' && c != '1' && c != '2' && c != '3') || |Remove(t, 'r')| != 1)
    ensures Decode(line) == Invalid
  {
    var t := Lower(Strip(line));
    var rest := Remove(t, 'r');
    if c :| c in t && c != 'r' && c != '1' && c != '2' && c != '3' {
      assert c in rest;
      assert c !in "1" && c !in "2" && c !in "3";
    }
    DecodeNotDigit(line, t);
  }

  /** Where the stripped line sits in the line: from `start` on, with only
      whitespace around it. */
  lemma StripWindow(line: string) returns (start: nat)
    ensures start + |Strip(line)| <= |line|
    ensures forall j :: 0 <= j < |Strip(line)| ==> Strip(line)[j] == line[start + j]
    ensures forall j :: 0 <= j < start ==> IsSpace(line[j])
    ensures forall j :: start + |Strip(line)| <= j < |line| ==> IsSpace(line[j])
  {
    var left := StripLeft(line);
    start := |line| - |left|;
    assert left == line[start..];
    var s := StripRight(left);
    assert forall j :: |s| <= j < |left| ==> IsSpace(left[j]);
    forall j | start + |s| <= j < |line| ensures IsSpace(line[j]) {
      assert left[j - start] == line[j];
    }
  }

  lemma LowerCharR(c: char)
    ensures LowerChar(c) == 'r' <==> c == 'r' || c == 'R'
  {
  }

  lemma NormalFormRInLine(line: string)
    requires 'r' in Lower(Strip(line))
    ensures exists j :: 0 <= j < |line| && (line[j] == 'r' || line[j] == 'R')
  {
    var start := StripWindow(line);
    var t := Lower(Strip(line));
    var j :| 0 <= j < |t| && t[j] == 'r';
    LowerCharR(Strip(line)[j]);
    assert line[start + j] == Strip(line)[j];
  }

  /** No 'r' or 'R' in a line whose non-blank window lower-cases to a text without 'r'. */
  lemma NoRInWindow(line: string, s: string, t: string, start: nat)
    requires start + |s| <= |line|
    requires forall j :: 0 <= j < |s| ==> s[j] == line[start + j]
    requires forall j :: 0 <= j < start ==> IsSpace(line[j])
    requires forall j :: start + |s| <= j < |line| ==> IsSpace(line[j])
    requires |t| == |s| && forall j :: 0 <= j < |s| ==> t[j] == LowerChar(s[j])
    requires 'r' !in t
    ensures forall j :: 0 <= j < |line| ==> line[j] != 'r' && line[j] != 'R'
  {
    forall j | 0 <= j < |line| ensures line[j] != 'r' && line[j] != 'R' {
      if j < start || start + |s| <= j {
        assert IsSpace(line[j]);
      } else {
        assert s[j - start] == line[j];
        assert t[j - start] in t;
        LowerCharR(line[j]);
      }
    }
  }

  lemma LineRInNormalForm(line: string)
    requires 'r' !in Lower(Strip(line))
    ensures forall j :: 0 <= j < |line| ==> line[j] != 'r' && line[j] != 'R'
  {
    var start := StripWindow(line);
    var s := Strip(line);
    NoRInWindow(line, s, Lower(s), start);
  }

  /** The normal form of a line has an 'r' iff the line has an 'r' or an 'R'. */
  lemma NormalFormHasR(line: string)
    ensures ('r' in Lower(Strip(line))) <==> exists j :: 0 <= j < |line| && (line[j] == 'r' || line[j] == 'R')
  {
    if 'r' in Lower(Strip(line)) {
      NormalFormRInLine(line);
    } else {
      LineRInNormalForm(line);
    }
  }

  /** The read flag is exactly "the answer has an 'r' or an 'R'". */
  lemma DecodeRead(line: string)
    requires Decode(line).Assign?
    ensures Decode(line).read <==> exists j :: 0 <= j < |line| && (line[j] == 'r' || line[j] == 'R')
  {
    NormalFormHasR(line);
  }

  // ------------------------------------------------------------ the update

  /** What one decoded answer did to the list. */
  datatype Outcome = AllAnnotated | Quitting | Reprompt | Annotated(index: nat)

  /** One turn of the loop of NovelSearch/cli.py:242-285 for one typed line:
      find the next record without a POV, decode the line, and record the POV
      and read flag on that record in place. */
  method ProcessAnswer(novels: array<Novel>, line: string) returns (outcome: Outcome)
    modifies novels
    ensures outcome == AllAnnotated <==> forall j :: 0 <= j < novels.Length ==> !Unannotated(old(novels[j]))
    ensures outcome == Quitting ==> Decode(line) == Quit
    ensures outcome == Reprompt ==> Decode(line) == Invalid
    ensures !outcome.Annotated? ==> novels[..] == old(novels[..])
    ensures outcome.Annotated? ==>
      && outcome.index < novels.Length
      && Unannotated(old(novels[outcome.index]))
      && (forall j :: 0 <= j < outcome.index ==> !Unannotated(old(novels[j])))
      && Decode(line).Assign?
      && novels[..] == old(novels[..])[outcome.index := old(novels[outcome.index]).(pov := Some(Decode(line).pov), read := Decode(line).read)]
  {
    var idx := FindNext(novels[..]);
    if idx.None? {
      return AllAnnotated;
    }
    var i := idx.value;
    var answer := Decode(line);
    match answer
    case Quit => return Quitting;
    case Invalid => return Reprompt;
    case Assign(pov, isRead) =>
      novels[i] := novels[i].(pov := Some(pov), read := isRead);
      return Annotated(i);
  }

  /** The number of records still without a POV. */
  function CountUnannotated(s: seq<Novel>): nat
  {
    if s == [] then 0 else CountUnannotated(s[..|s| - 1]) + (if Unannotated(s[|s| - 1]) then 1 else 0)
  }

  /** Every accepted answer gives one more record a POV, so the session ends
      after at most as many accepted answers as there are records. */
  lemma {:induction false} AnswerProgress(s: seq<Novel>, i: nat, pov: string, read: bool)
    requires i < |s| && Unannotated(s[i]) && pov != ""
    ensures CountUnannotated(s[i := s[i].(pov := Some(pov), read := read)]) == CountUnannotated(s) - 1
  {
    var t := s[i := s[i].(pov := Some(pov), read := read)];
    if i < |s| - 1 {
      assert t[..|t| - 1] == s[..|s| - 1][i := s[i].(pov := Some(pov), read := read)];
      AnswerProgress(s[..|s| - 1], i, pov, read);
    } else {
      assert t[..|t| - 1] == s[..|s| - 1];
    }
  }
}
