/**
 * Shared vocabulary of the record store: optional values, the HTTP error
 * kinds the controllers answer with, request-parameter tests as PHP and
 * Laravel perform them, substring search, decimal rendering of ids, string
 * ordering and filtering of sequences.
 */
module Common {

  datatype Option<T> = None | Some(value: T)

  /** A request field that may be missing, sent as null, or sent with a value. */
  datatype Nullable<T> = Absent | Null | Given(value: T)

  /** The failures a controller reports; each maps to one HTTP status. */
  datatype HttpError = ValidationError | NotFound | InternalError {
    function Status(): (code: int)
      ensures code == 422 <==> this == ValidationError
      ensures code == 404 <==> this == NotFound
      ensures code == 500 <==> this == InternalError
    {
      match this
      case ValidationError => 422
      case NotFound => 404
      case InternalError => 500
    }
  }

  datatype Result<T> = Ok(value: T) | Err(error: HttpError)

  // ---------------------------------------------------------------------------
  // Request parameters

  /** The characters PHP's `trim` removes. */
  predicate IsTrimmable(c: char) {
    c == ' ' || c == '\t' || c == '\n' || c == '\r' || c == '\0' || c == '\U{000B}'
  }

  /** Laravel's notion of a blank string: nothing left after `trim`. */
  predicate Blank(s: string) {
    forall i :: 0 <= i < |s| ==> IsTrimmable(s[i])
  }

  /** `$request->filled(key)`: the parameter is present and not blank. */
  predicate Filled(p: Option<string>) {
    p.Some? && !Blank(p.value)
  }

  /** PHP's truthiness of a string: only "" and "0" are false. */
  predicate PhpFalsy(s: string) {
    s == "" || s == "0"
  }

  /** `$request->has(key) && $request->key`: present and PHP-truthy. */
  predicate Truthy(p: Option<string>) {
    p.Some? && !PhpFalsy(p.value)
  }

  // ---------------------------------------------------------------------------
  // Search

  /** `needle` occurs in `hay` starting at offset `i`. */
  predicate OccursAt(hay: string, needle: string, i: int) {
    0 <= i && i + |needle| <= |hay| && hay[i..i + |needle|] == needle
  }

  /** `needle` occurs in `hay`: SQL `hay LIKE '%needle%'`. */
  predicate Contains(hay: string, needle: string) {
    exists i :: 0 <= i <= |hay| && OccursAt(hay, needle, i)
  }

  // ---------------------------------------------------------------------------
  // Decimal rendering of ids, used to compare an id column with a string parameter

  function DigitChar(d: nat): (c: char)
    requires d < 10
    ensures '0' <= c <= '9'
  {
    ('0' as int + d) as char
  }

  /** The canonical decimal text of `n`: digits only, no leading zero. */
  function NatToString(n: nat): (s: string)
    ensures 1 <= |s|
    ensures n < 10 <==> |s| == 1
    ensures forall i :: 0 <= i < |s| ==> '0' <= s[i] <= '9'
    ensures |s| > 1 ==> s[0] != '0'
    ensures s[|s| - 1] == DigitChar(n % 10)
  {
    if n < 10 then [DigitChar(n)] else NatToString(n / 10) + [DigitChar(n % 10)]
  }

  /** An id column compared with a request parameter: the parameter is the id's decimal text. */
  predicate IdIs(id: nat, param: string) {
    NatToString(id) == param
  }

  /** Distinct ids have distinct decimal texts, so an id parameter selects one id. */
  lemma {:induction false} NatToStringInjective(a: nat, b: nat)
    requires NatToString(a) == NatToString(b)
    ensures a == b
  {
    var s := NatToString(a);
    if a >= 10 && b >= 10 {
      var n := |s| - 1;
      assert NatToString(a)[..n] == NatToString(a / 10);
      assert NatToString(b)[..n] == NatToString(b / 10);
      NatToStringInjective(a / 10, b / 10);
      assert DigitChar(a % 10) == DigitChar(b % 10);
    } else if a < 10 && b < 10 {
      assert DigitChar(a) == s[0] == DigitChar(b);
    }
  }

  // ---------------------------------------------------------------------------
  // Ordering of strings (character-code lexicographic order)

  /** `a` sorts no later than `b`. */
  predicate StrLe(a: string, b: string)
    decreases |a|
  {
    |a| == 0 || (|b| > 0 && (a[0] < b[0] || (a[0] == b[0] && StrLe(a[1..], b[1..]))))
  }

  lemma {:induction false} StrLeTotal(a: string, b: string)
    ensures StrLe(a, b) || StrLe(b, a)
    decreases |a|
  {
    if |a| > 0 && |b| > 0 && a[0] == b[0] {
      StrLeTotal(a[1..], b[1..]);
    }
  }

  lemma {:induction false} StrLeTransitive(a: string, b: string, c: string)
    requires StrLe(a, b) && StrLe(b, c)
    ensures StrLe(a, c)
    decreases |a|
  {
    if |a| > 0 && a[0] == b[0] && b[0] == c[0] {
      StrLeTransitive(a[1..], b[1..], c[1..]);
    }
  }

  // ---------------------------------------------------------------------------
  // Sequences

  /** The elements of `s` that satisfy `p`, in their order: a SQL `where`. */
  function Filter<T(!new)>(s: seq<T>, p: T -> bool): (r: seq<T>)
    ensures |r| <= |s|
    ensures forall i :: 0 <= i < |r| ==> p(r[i])
    ensures forall x :: x in r <==> x in s && p(x)
    ensures forall x :: multiset(r)[x] == if p(x) then multiset(s)[x] else 0
  {
    if |s| == 0 then []
    else
      assert s == [s[0]] + s[1..];
      if p(s[0]) then [s[0]] + Filter(s[1..], p) else Filter(s[1..], p)
  }

  /** Two conditions that agree on every element select the same subsequence. */
  lemma {:induction false} FilterCongruent<T(!new)>(s: seq<T>, p: T -> bool, q: T -> bool)
    requires forall i :: 0 <= i < |s| ==> p(s[i]) == q(s[i])
    ensures Filter(s, p) == Filter(s, q)
  {
    if |s| > 0 {
      FilterCongruent(s[1..], p, q);
    }
  }

  /** `f` applied to every element of `s`. */
  function Map<A, B>(s: seq<A>, f: A -> B): (r: seq<B>)
    ensures |r| == |s|
    ensures forall i :: 0 <= i < |s| ==> r[i] == f(s[i])
  {
    seq(|s|, i requires 0 <= i < |s| => f(s[i]))
  }

  /** The images in `Map(s, f)` are exactly the images of the elements of `s`. */
  lemma MapMembers<A, B>(s: seq<A>, f: A -> B)
    ensures forall o :: o in Map(s, f) <==> exists x :: x in s && o == f(x)
  {
    forall o | exists x :: x in s && o == f(x)
      ensures o in Map(s, f)
    {
      var x :| x in s && o == f(x);
      var i :| 0 <= i < |s| && s[i] == x;
      assert Map(s, f)[i] == o;
    }
  }

  /** A sequence is its prefix before `j`, its element at `j` and its suffix after `j`. */
  lemma SplitAt<A>(s: seq<A>, j: nat)
    requires j < |s|
    ensures s == s[..j] + ([s[j]] + s[j + 1..])
  {
  }

  /** Removing the element at `j` removes one occurrence of it. */
  lemma RemoveAt<A>(s: seq<A>, j: nat)
    requires j < |s|
    ensures multiset(s[..j] + s[j + 1..]) == multiset(s) - multiset{s[j]}
  {
    assert s == s[..j] + [s[j]] + s[j + 1..];
  }

  /** `Map` distributes over concatenation. */
  lemma MapAppend<A, B>(a: seq<A>, b: seq<A>, f: A -> B)
    ensures Map(a + b, f) == Map(a, f) + Map(b, f)
  {
  }

  /** The images of `s` are those of `s` without its element at `j`, plus that element's image. */
  lemma MapRemoveAt<A, B>(s: seq<A>, j: nat, f: A -> B)
    requires j < |s|
    ensures multiset(Map(s, f)) == multiset(Map(s[..j] + s[j + 1..], f)) + multiset{f(s[j])}
  {
    var ma, mb := Map(s[..j], f), Map(s[j + 1..], f);
    assert Map(s, f) == ma + ([f(s[j])] + mb) by {
      var tail := [s[j]] + s[j + 1..];
      SplitAt(s, j);
      MapAppend(s[..j], tail, f);
      assert Map([s[j]], f) == [f(s[j])];
      MapAppend([s[j]], s[j + 1..], f);
    }
    MapAppend(s[..j], s[j + 1..], f);
  }

  /** Dropping the first element of `s` and a matching element of `s'` keeps the two arrangements of one multiset. */
  lemma RemoveMatching<A>(s: seq<A>, s': seq<A>, j: nat)
    requires multiset(s) == multiset(s') && |s| > 0 && j < |s'| && s'[j] == s[0]
    ensures multiset(s[1..]) == multiset(s'[..j] + s'[j + 1..])
  {
    var x := s[0];
    assert multiset(s[1..]) == multiset(s) - multiset{x} by {
      assert s == [x] + s[1..];
    }
    assert multiset(s'[..j] + s'[j + 1..]) == multiset(s') - multiset{x} by {
      RemoveAt(s', j);
    }
  }

  /** Putting back the first image and the matching image keeps the images one multiset. */
  lemma MapRestoreMatching<A, B>(s: seq<A>, s': seq<A>, j: nat, f: A -> B)
    requires |s| > 0 && j < |s'| && s'[j] == s[0]
    requires multiset(Map(s[1..], f)) == multiset(Map(s'[..j] + s'[j + 1..], f))
    ensures multiset(Map(s, f)) == multiset(Map(s', f))
  {
    var rest, y := s'[..j] + s'[j + 1..], f(s[0]);
    assert multiset(Map(s, f)) == multiset(Map(s[1..], f)) + multiset{y} by {
      assert Map(s, f) == [y] + Map(s[1..], f);
    }
    assert multiset(Map(s', f)) == multiset(Map(rest, f)) + multiset{y} by {
      MapRemoveAt(s', j, f);
    }
  }

  /** Mapping two arrangements of the same elements gives two arrangements of the same images. */
  lemma {:induction false} MapPermutation<A, B>(s: seq<A>, s': seq<A>, f: A -> B)
    requires multiset(s) == multiset(s')
    ensures multiset(Map(s, f)) == multiset(Map(s', f))
    decreases |s|
  {
    if |s| == 0 {
      assert |multiset(s')| == 0;
    } else {
      assert s[0] in multiset(s');
      var j :| 0 <= j < |s'| && s'[j] == s[0];
      RemoveMatching(s, s', j);
      MapPermutation(s[1..], s'[..j] + s'[j + 1..], f);
      MapRestoreMatching(s, s', j, f);
    }
  }
}
