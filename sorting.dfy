/**
 * SQL `ORDER BY <column> [ASC|DESC]` over a string column, as a stable
 * insertion sort. The database leaves the order of equal keys open; the
 * contract below says only what the database promises: the result is
 * ordered by the key and is a permutation of the input.
 */
module Sorting {
  import opened Common

  datatype Direction = Ascending | Descending

  /** `a` may precede `b` in the given direction. */
  predicate InOrder(dir: Direction, a: string, b: string) {
    if dir == Ascending then StrLe(a, b) else StrLe(b, a)
  }

  lemma InOrderTotal(dir: Direction, a: string, b: string)
    ensures InOrder(dir, a, b) || InOrder(dir, b, a)
  {
    StrLeTotal(a, b);
  }

  lemma InOrderTransitive(dir: Direction, a: string, b: string, c: string)
    requires InOrder(dir, a, b) && InOrder(dir, b, c)
    ensures InOrder(dir, a, c)
  {
    if dir == Ascending { StrLeTransitive(a, b, c); } else { StrLeTransitive(c, b, a); }
  }

  ghost predicate SortedBy<T>(s: seq<T>, key: T -> string, dir: Direction) {
    forall i, j :: 0 <= i < j < |s| ==> InOrder(dir, key(s[i]), key(s[j]))
  }

  /** `x` placed into the sorted `s` before the first element it may precede. */
  function Insert<T>(x: T, s: seq<T>, key: T -> string, dir: Direction): (r: seq<T>)
    requires SortedBy(s, key, dir)
    ensures SortedBy(r, key, dir)
    ensures multiset(r) == multiset(s) + multiset{x}
  {
    if |s| == 0 then [x]
    else if InOrder(dir, key(x), key(s[0])) then
      assert forall j :: 0 < j < |s| ==> InOrder(dir, key(x), key(s[j])) by {
        forall j | 0 < j < |s| ensures InOrder(dir, key(x), key(s[j])) {
          InOrderTransitive(dir, key(x), key(s[0]), key(s[j]));
        }
      }
      [x] + s
    else
      InOrderTotal(dir, key(x), key(s[0]));
      var rest := Insert(x, s[1..], key, dir);
      assert s == [s[0]] + s[1..];
      assert forall j :: 0 <= j < |rest| ==> InOrder(dir, key(s[0]), key(rest[j])) by {
        forall j | 0 <= j < |rest| ensures InOrder(dir, key(s[0]), key(rest[j])) {
          assert rest[j] in multiset(rest);
          if rest[j] != x {
            assert rest[j] in s[1..];
            var k :| 0 <= k < |s[1..]| && s[1..][k] == rest[j];
            assert s[k + 1] == rest[j];
          }
        }
      }
      [s[0]] + rest
  }

  /** The rows of `s` ordered by `key` in direction `dir`. */
  function SortBy<T>(s: seq<T>, key: T -> string, dir: Direction): (r: seq<T>)
    ensures SortedBy(r, key, dir)
    ensures multiset(r) == multiset(s)
  {
    if |s| == 0 then []
    else
      assert s == [s[0]] + s[1..];
      Insert(s[0], SortBy(s[1..], key, dir), key, dir)
  }

  /** Projecting every element keeps the order when the projection keeps the key. */
  lemma MapKeepsOrder<T, U>(s: seq<T>, key: T -> string, f: T -> U, key': U -> string, dir: Direction)
    requires SortedBy(s, key, dir)
    requires forall i :: 0 <= i < |s| ==> key'(f(s[i])) == key(s[i])
    ensures SortedBy(Map(s, f), key', dir)
  {
  }
}
