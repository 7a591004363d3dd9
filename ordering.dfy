/**
 * The orders a SELECT's `ORDER BY` clause gives: by the integer id, or by a
 * text column (code-point lexicographic, NULL last as in an ascending
 * PostgreSQL sort).
 */
module Ordering {

  /** The ids of `keys` that lie in [lo, hi), in increasing order. */
  function IdsIn(keys: set<int>, lo: int, hi: int): (r: seq<int>)
    ensures forall x :: x in r <==> x in keys && lo <= x < hi
    ensures forall i, j :: 0 <= i < j < |r| ==> r[i] < r[j]
    decreases hi - lo
  {
    if lo >= hi then []
    else if lo in keys then
      var rest := IdsIn(keys, lo + 1, hi);
      assert forall j :: 0 <= j < |rest| ==> rest[j] in rest && lo < rest[j];
      [lo] + rest
    else IdsIn(keys, lo + 1, hi)
  }

  /**
   * `ORDER BY id` over a table whose serial ids all lie below `next`: every
   * id exactly once, strictly increasing.
   */
  function SortedIds(keys: set<int>, next: int): (r: seq<int>)
    requires forall k :: k in keys ==> 1 <= k < next
    ensures forall x :: x in r <==> x in keys
    ensures forall i, j :: 0 <= i < j < |r| ==> r[i] < r[j]
  {
    IdsIn(keys, 1, next)
  }

  /** A text sort key; `Null` stands for SQL NULL, which sorts after every text. */
  datatype SortKey = Null | Text(s: string)

  /** Code-point lexicographic order on strings (a "C" collation). */
  predicate TextLe(a: string, b: string)
    decreases |a|
  {
    |a| == 0 || (|b| > 0 && (a[0] < b[0] || (a[0] == b[0] && TextLe(a[1..], b[1..]))))
  }

  predicate KeyLe(a: SortKey, b: SortKey) {
    b.Null? || (a.Text? && TextLe(a.s, b.s))
  }

  lemma {:induction false} TextLeTotal(a: string, b: string)
    ensures TextLe(a, b) || TextLe(b, a)
    decreases |a|
  {
    if |a| > 0 && |b| > 0 && a[0] == b[0] {
      TextLeTotal(a[1..], b[1..]);
    }
  }

  lemma {:induction false} TextLeTrans(a: string, b: string, c: string)
    requires TextLe(a, b) && TextLe(b, c)
    ensures TextLe(a, c)
    decreases |a|
  {
    if |a| > 0 && a[0] == b[0] && b[0] == c[0] {
      TextLeTrans(a[1..], b[1..], c[1..]);
    }
  }

  lemma KeyLeTotal(a: SortKey, b: SortKey)
    ensures KeyLe(a, b) || KeyLe(b, a)
  {
    if a.Text? && b.Text? {
      TextLeTotal(a.s, b.s);
    }
  }

  lemma KeyLeTrans(a: SortKey, b: SortKey, c: SortKey)
    requires KeyLe(a, b) && KeyLe(b, c)
    ensures KeyLe(a, c)
  {
    if a.Text? && b.Text? && c.Text? {
      TextLeTrans(a.s, b.s, c.s);
    }
  }

  predicate Keyed(ids: seq<int>, key: map<int, SortKey>) {
    forall i :: 0 <= i < |ids| ==> ids[i] in key
  }

  predicate SortedBy(ids: seq<int>, key: map<int, SortKey>)
    requires Keyed(ids, key)
  {
    forall i, j :: 0 <= i < j < |ids| ==> KeyLe(key[ids[i]], key[ids[j]])
  }

  /** Puts `x` after every element whose key is not greater than its own. */
  function Insert(x: int, s: seq<int>, key: map<int, SortKey>): (r: seq<int>)
    requires x in key && Keyed(s, key)
    ensures Keyed(r, key) && multiset(r) == multiset(s) + multiset{x}
  {
    if s == [] then [x]
    else if !KeyLe(key[s[0]], key[x]) then [x] + s
    else
      assert s == [s[0]] + s[1..];
      [s[0]] + Insert(x, s[1..], key)
  }

  lemma {:induction false} InsertSorted(x: int, s: seq<int>, key: map<int, SortKey>)
    requires x in key && Keyed(s, key) && SortedBy(s, key)
    ensures SortedBy(Insert(x, s, key), key)
  {
    if s == [] {
    } else if !KeyLe(key[s[0]], key[x]) {
      KeyLeTotal(key[s[0]], key[x]);
      var r := [x] + s;
      forall i, j | 0 <= i < j < |r| ensures KeyLe(key[r[i]], key[r[j]]) {
        if i == 0 && j > 1 {
          KeyLeTrans(key[x], key[s[0]], key[s[j - 1]]);
        }
      }
    } else {
      assert SortedBy(s[1..], key);
      InsertSorted(x, s[1..], key);
      var rest := Insert(x, s[1..], key);
      var r := [s[0]] + rest;
      forall i, j | 0 <= i < j < |r| ensures KeyLe(key[r[i]], key[r[j]]) {
        if i == 0 {
          var y := rest[j - 1];
          assert y in multiset(rest);
          if y != x {
            assert y in multiset(s[1..]);
            var k :| 0 <= k < |s[1..]| && s[1..][k] == y;
            assert s[k + 1] == y;
          }
        }
      }
    }
  }

  /** `ORDER BY` a text key over rows listed in id order (ties keep id order). */
  function SortBy(ids: seq<int>, key: map<int, SortKey>): (r: seq<int>)
    requires Keyed(ids, key)
    ensures Keyed(r, key) && SortedBy(r, key)
    ensures multiset(r) == multiset(ids)
  {
    if ids == [] then []
    else
      var init := ids[..|ids| - 1];
      assert ids == init + [ids[|ids| - 1]];
      InsertSorted(ids[|ids| - 1], SortBy(init, key), key);
      Insert(ids[|ids| - 1], SortBy(init, key), key)
  }

  /** Strictly increasing ids, as `ORDER BY id` lists them. */
  predicate Increasing(s: seq<int>) {
    forall i, j :: 0 <= i < j < |s| ==> s[i] < s[j]
  }

  /** The head of an increasing sequence, put before any increasing part of its tail, keeps it increasing. */
  lemma HeadBelowTail(ids: seq<int>, rest: seq<int>)
    requires ids != [] && Increasing(ids) && Increasing(rest)
    requires forall x :: x in rest ==> x in ids[1..]
    ensures Increasing([ids[0]] + rest)
  {
    var r := [ids[0]] + rest;
    forall i, j | 0 <= i < j < |r| ensures r[i] < r[j] {
      if i == 0 {
        assert r[j] == rest[j - 1] && rest[j - 1] in rest;
        var k :| 0 <= k < |ids[1..]| && ids[1..][k] == r[j];
        assert ids[k + 1] == r[j];
      } else {
        assert r[i] == rest[i - 1] && r[j] == rest[j - 1];
      }
    }
  }

  /** A strictly increasing sequence holds each value at most once. */
  lemma {:induction false} IncreasingOnce(s: seq<int>, x: int)
    requires Increasing(s)
    ensures multiset(s)[x] <= 1
  {
    if s != [] {
      assert s == [s[0]] + s[1..];
      IncreasingOnce(s[1..], x);
      if x == s[0] {
        assert x !in s[1..];
      }
    }
  }

  /** A value at two positions of a sequence is counted at least twice. */
  lemma RepeatCounts(s: seq<int>, i: int, j: int)
    requires 0 <= i < j < |s| && s[i] == s[j]
    ensures multiset(s)[s[i]] >= 2
  {
    var x := s[i];
    assert s == s[..i] + [x] + s[i + 1..j] + [x] + s[j + 1..];
    assert multiset(s) == multiset(s[..i]) + multiset{x} + multiset(s[i + 1..j]) + multiset{x} + multiset(s[j + 1..]);
  }

  /** A reordering of a strictly increasing sequence repeats no element. */
  lemma PermutedIncreasingDistinct(ids: seq<int>, s: seq<int>)
    requires Increasing(ids)
    requires multiset(s) == multiset(ids)
    ensures forall i, j :: 0 <= i < j < |s| ==> s[i] != s[j]
  {
    forall i, j | 0 <= i < j < |s| ensures s[i] != s[j] {
      IncreasingOnce(ids, s[i]);
      if s[i] == s[j] {
        RepeatCounts(s, i, j);
      }
    }
  }
}
