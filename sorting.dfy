/** Ordering entries by name the way Go compares strings: lexicographically,
    character by character. (Go compares the UTF-8 bytes; for valid strings
    that is the same order as comparing code points.) */
module Sorting {
  import opened FileSystem

  /** a < b on strings. */
  predicate NameLess(a: string, b: string) {
    if a == [] then b != []
    else if b == [] then false
    else if a[0] != b[0] then a[0] < b[0]
    else NameLess(a[1..], b[1..])
  }

  lemma {:induction false} NameLessIrreflexive(a: string)
    ensures !NameLess(a, a)
  {
    if a != [] {
      NameLessIrreflexive(a[1..]);
    }
  }

  lemma {:induction false} NameLessAsymmetric(a: string, b: string)
    requires NameLess(a, b)
    ensures !NameLess(b, a)
  {
    if a != [] && b != [] && a[0] == b[0] {
      NameLessAsymmetric(a[1..], b[1..]);
    }
  }

  lemma {:induction false} NameLessTransitive(a: string, b: string, c: string)
    requires NameLess(a, b) && NameLess(b, c)
    ensures NameLess(a, c)
  {
    if a != [] && a[0] == b[0] && b[0] == c[0] {
      NameLessTransitive(a[1..], b[1..], c[1..]);
    }
  }

  lemma {:induction false} NameLessTotal(a: string, b: string)
    ensures a == b || NameLess(a, b) || NameLess(b, a)
  {
    if a != [] && b != [] && a[0] == b[0] {
      NameLessTotal(a[1..], b[1..]);
      if a[1..] == b[1..] {
        assert a == [a[0]] + a[1..] && b == [b[0]] + b[1..];
      }
    }
  }

  /** No entry's name is below an earlier entry's name. */
  predicate Sorted(s: seq<Entry>) {
    forall i, j | 0 <= i < j < |s| :: !NameLess(s[j].name, s[i].name)
  }

  /** Names strictly increase. */
  predicate StrictlyAscending(s: seq<Entry>) {
    forall i, j | 0 <= i < j < |s| :: NameLess(s[i].name, s[j].name)
  }

  predicate NameAbsent(name: string, s: seq<Entry>) {
    forall x | x in s :: x.name != name
  }

  lemma ConsSorted(x: Entry, t: seq<Entry>)
    requires Sorted(t) && forall y | y in t :: !NameLess(y.name, x.name)
    ensures Sorted([x] + t)
  {
    var r := [x] + t;
    forall i, j | 0 <= i < j < |r| ensures !NameLess(r[j].name, r[i].name) {
      if i > 0 {
        assert r[i] == t[i - 1] && r[j] == t[j - 1];
      } else {
        assert r[j] in t;
      }
    }
  }

  lemma ConsAscending(x: Entry, t: seq<Entry>)
    requires StrictlyAscending(t) && forall y | y in t :: NameLess(x.name, y.name)
    ensures StrictlyAscending([x] + t)
  {
    var r := [x] + t;
    forall i, j | 0 <= i < j < |r| ensures NameLess(r[i].name, r[j].name) {
      if i > 0 {
        assert r[i] == t[i - 1] && r[j] == t[j - 1];
      } else {
        assert r[j] in t;
      }
    }
  }

  /** e belongs in front of the sorted s: nothing in s is below it. */
  lemma InsertFront(e: Entry, s: seq<Entry>)
    requires Sorted(s) && s != [] && !NameLess(s[0].name, e.name)
    ensures Sorted([e] + s)
    ensures StrictlyAscending(s) && NameAbsent(e.name, s) ==> StrictlyAscending([e] + s)
  {
    forall y | y in s ensures !NameLess(y.name, e.name) {
      NameLessTotal(s[0].name, y.name);
      if NameLess(s[0].name, y.name) && NameLess(y.name, e.name) {
        NameLessTransitive(s[0].name, y.name, e.name);
      }
    }
    ConsSorted(e, s);
    if StrictlyAscending(s) && NameAbsent(e.name, s) {
      NameLessTotal(e.name, s[0].name);
      forall y | y in s ensures NameLess(e.name, y.name) {
        var j :| 0 <= j < |s| && s[j] == y;
        if j > 0 {
          NameLessTransitive(e.name, s[0].name, y.name);
        }
      }
      ConsAscending(e, s);
    }
  }

  /** s[0] belongs in front of the insertion of e into the rest of s. */
  lemma InsertBehind(e: Entry, s: seq<Entry>, rest: seq<Entry>)
    requires Sorted(s) && s != [] && NameLess(s[0].name, e.name)
    requires Sorted(rest) && multiset(rest) == multiset(s[1..]) + multiset{e}
    requires StrictlyAscending(s[1..]) && NameAbsent(e.name, s[1..]) ==> StrictlyAscending(rest)
    ensures Sorted([s[0]] + rest)
    ensures StrictlyAscending(s) && NameAbsent(e.name, s) ==> StrictlyAscending([s[0]] + rest)
  {
    NameLessAsymmetric(s[0].name, e.name);
    forall y | y in rest ensures !NameLess(y.name, s[0].name) && (y in s[1..] || y == e) {
      assert y in multiset(rest);
      if y != e {
        var j :| 0 <= j < |s[1..]| && s[1..][j] == y;
        assert s[j + 1] == y;
      }
    }
    ConsSorted(s[0], rest);
    if StrictlyAscending(s) && NameAbsent(e.name, s) {
      forall y | y in rest ensures NameLess(s[0].name, y.name) {
        if y != e {
          var j :| 0 <= j < |s[1..]| && s[1..][j] == y;
          assert s[j + 1] == y;
        }
      }
      ConsAscending(s[0], rest);
    }
  }

  /** e placed in front of the first entry of s not below it. */
  function Insert(e: Entry, s: seq<Entry>): seq<Entry> {
    if s == [] then [e]
    else if !NameLess(s[0].name, e.name) then [e] + s
    else [s[0]] + Insert(e, s[1..])
  }

  /** Inserting adds e and loses nothing. */
  lemma {:induction false} InsertPermutes(e: Entry, s: seq<Entry>)
    ensures multiset(Insert(e, s)) == multiset(s) + multiset{e}
  {
    if s != [] && NameLess(s[0].name, e.name) {
      assert s == [s[0]] + s[1..];
      InsertPermutes(e, s[1..]);
    }
  }

  /** Inserting into a sorted sequence keeps it sorted, and strictly so when
      the new name is not there yet. */
  lemma {:induction false} InsertSorted(e: Entry, s: seq<Entry>)
    requires Sorted(s)
    ensures Sorted(Insert(e, s))
    ensures StrictlyAscending(s) && NameAbsent(e.name, s) ==> StrictlyAscending(Insert(e, s))
  {
    if s != [] {
      if !NameLess(s[0].name, e.name) {
        InsertFront(e, s);
      } else {
        assert s == [s[0]] + s[1..];
        InsertSorted(e, s[1..]);
        InsertPermutes(e, s[1..]);
        InsertBehind(e, s, Insert(e, s[1..]));
      }
    }
  }

  lemma HeadNameAbsent(s: seq<Entry>, rest: seq<Entry>)
    requires s != [] && multiset(rest) == multiset(s[1..])
    ensures DistinctNames(s) ==> DistinctNames(s[1..]) && NameAbsent(s[0].name, rest)
  {
    if !DistinctNames(s) {
      return;
    }
    forall y | y in rest ensures y.name != s[0].name {
      assert y in multiset(rest);
      var j :| 0 <= j < |s[1..]| && s[1..][j] == y;
      assert s[j + 1] == y;
    }
    forall i, j | 0 <= i < j < |s[1..]| ensures s[1..][i].name != s[1..][j].name {
      assert s[1..][i] == s[i + 1] && s[1..][j] == s[j + 1];
    }
  }

  /** sort.Slice by name, as an insertion sort: a permutation of the input. */
  function SortByName(s: seq<Entry>): (sorted: seq<Entry>) {
    if s == [] then []
    else Insert(s[0], SortByName(s[1..]))
  }

  /** Sorting neither adds nor loses an entry. */
  lemma {:induction false} SortByNamePermutes(s: seq<Entry>)
    ensures multiset(SortByName(s)) == multiset(s)
  {
    if s != [] {
      assert s == [s[0]] + s[1..];
      SortByNamePermutes(s[1..]);
      InsertPermutes(s[0], SortByName(s[1..]));
    }
  }

  /** The sorted entries are in order, strictly when their names are distinct. */
  lemma {:induction false} SortByNameSorted(s: seq<Entry>)
    ensures Sorted(SortByName(s))
    ensures DistinctNames(s) ==> StrictlyAscending(SortByName(s))
  {
    if s != [] {
      SortByNameSorted(s[1..]);
      SortByNamePermutes(s[1..]);
      var rest := SortByName(s[1..]);
      HeadNameAbsent(s, rest);
      InsertSorted(s[0], rest);
    }
  }

  /** Two strictly ascending permutations of the same entries start alike. */
  lemma AscendingHeadsAgree(a: seq<Entry>, b: seq<Entry>)
    requires StrictlyAscending(a) && StrictlyAscending(b)
    requires multiset(a) == multiset(b) && a != []
    ensures b != [] && a[0] == b[0]
  {
    assert a[0] in multiset(b);
    assert b[0] in multiset(a);
    var i :| 0 <= i < |a| && a[i] == b[0];
    var j :| 0 <= j < |b| && b[j] == a[0];
    if i > 0 && j > 0 {
      NameLessTransitive(a[0].name, a[i].name, b[j].name);
      NameLessIrreflexive(a[0].name);
    } else if i > 0 {
      NameLessIrreflexive(a[0].name);
    } else if j > 0 {
      NameLessIrreflexive(b[0].name);
    }
  }

  /** Removing equal heads leaves equal multisets of tails. */
  lemma TailsPermute(a: seq<Entry>, b: seq<Entry>)
    requires a != [] && b != [] && a[0] == b[0] && multiset(a) == multiset(b)
    ensures multiset(a[1..]) == multiset(b[1..])
  {
    assert a == [a[0]] + a[1..] && b == [b[0]] + b[1..];
    assert multiset(a) == multiset{a[0]} + multiset(a[1..]);
    assert multiset(b) == multiset{b[0]} + multiset(b[1..]);
    assert multiset(a[1..]) == multiset(a) - multiset{a[0]};
    assert multiset(b[1..]) == multiset(b) - multiset{b[0]};
  }

  /** Sorting by distinct names leaves no choice: two strictly ascending
      permutations of the same entries are equal. So any sorting algorithm,
      stable or not, yields what SortByName yields. */
  lemma {:induction false} AscendingPermutationIsUnique(a: seq<Entry>, b: seq<Entry>)
    requires StrictlyAscending(a) && StrictlyAscending(b)
    requires multiset(a) == multiset(b)
    ensures a == b
    decreases |a|
  {
    if a == [] {
      assert |b| == |multiset(b)| == 0;
    } else {
      AscendingHeadsAgree(a, b);
      TailsPermute(a, b);
      AscendingPermutationIsUnique(a[1..], b[1..]);
      assert a == [a[0]] + a[1..] && b == [b[0]] + b[1..];
    }
  }
}
