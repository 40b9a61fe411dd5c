/** Small value types shared by the whole model. */
module Common {

  /** A reference that may be null: `None` stands for C#'s `null`. */
  datatype Option<+T> = None | Some(value: T)

  /** The outcome of an operation that returns nothing but may throw. */
  datatype Outcome<+E> = Pass | Fail(error: E)

  const INT32_MIN: int := -0x8000_0000
  const INT32_MAX: int := 0x7FFF_FFFF

  /** C#'s `int`. */
  newtype Int32 = x: int | -0x8000_0000 <= x <= 0x7FFF_FFFF

  /** A `DateTime`, as a count of ticks. The clock is a parameter of the operations that read it. */
  type Timestamp = int

  /** `default(DateTime)`, the value of a `DateTime` property nobody assigned. */
  const DefaultTime: Timestamp := 0

  /** LINQ's `Where(...).ToList()`: the elements of `s` that satisfy `f`, in
      their order. What that means is stated by the lemmas below. */
  function Where<T>(s: seq<T>, f: T -> bool): seq<T>
  {
    if s == [] then []
    else (if f(s[0]) then [s[0]] else []) + Where(s[1..], f)
  }

  /** The filter keeps only elements that satisfy `f`, keeps every one that
      does, and never grows the list. */
  lemma {:induction false} WhereMembers<T>(s: seq<T>, f: T -> bool)
    ensures |Where(s, f)| <= |s|
    ensures var r := Where(s, f); forall i :: 0 <= i < |r| ==> r[i] in s && f(r[i])
    ensures var r := Where(s, f); forall i :: 0 <= i < |s| && f(s[i]) ==> s[i] in r
  {
    if s != [] {
      WhereMembers(s[1..], f);
    }
  }

  /** Each element that satisfies `f` is kept exactly as often as it occurs,
      and no other element is kept. */
  lemma {:induction false} WhereCounts<T(!new)>(s: seq<T>, f: T -> bool)
    ensures forall x :: multiset(Where(s, f))[x] == if f(x) then multiset(s)[x] else 0
  {
    if s != [] {
      WhereCounts(s[1..], f);
      assert s == [s[0]] + s[1..];
    }
  }

  /** Filtering a concatenation filters each part in turn, so the kept
      elements stay in their input order. */
  lemma {:induction false} WhereAppend<T>(a: seq<T>, b: seq<T>, f: T -> bool)
    ensures Where(a + b, f) == Where(a, f) + Where(b, f)
  {
    if a == [] {
      assert a + b == b;
    } else {
      WhereAppend(a[1..], b, f);
      assert (a + b)[0] == a[0];
      assert (a + b)[1..] == a[1..] + b;
    }
  }

  /** A list ordered by a strictly increasing key stays so ordered after filtering. */
  lemma {:induction false} WhereKeepsOrder<T>(s: seq<T>, f: T -> bool, key: T -> int)
    requires forall i, j :: 0 <= i < j < |s| ==> key(s[i]) < key(s[j])
    ensures var r := Where(s, f); forall i, j :: 0 <= i < j < |r| ==> key(r[i]) < key(r[j])
  {
    if s != [] {
      WhereKeepsOrder(s[1..], f, key);
      WhereMembers(s[1..], f);
      var rest := Where(s[1..], f);
      if f(s[0]) {
        var r := [s[0]] + rest;
        assert Where(s, f) == r;
        forall i, j | 0 <= i < j < |r| ensures key(r[i]) < key(r[j]) {
          assert r[j] == rest[j - 1];
          if i == 0 {
            assert rest[j - 1] in s[1..];
            var k :| 0 <= k < |s[1..]| && s[1..][k] == rest[j - 1];
            assert s[k + 1] == rest[j - 1];
          } else {
            assert r[i] == rest[i - 1];
          }
        }
      }
    }
  }

  /** Filtering with two predicates that agree on every element gives the same list. */
  lemma {:induction false} WhereCongruent<T>(s: seq<T>, f: T -> bool, g: T -> bool)
    requires forall i :: 0 <= i < |s| ==> f(s[i]) == g(s[i])
    ensures Where(s, f) == Where(s, g)
  {
    if s != [] {
      WhereCongruent(s[1..], f, g);
    }
  }
}
