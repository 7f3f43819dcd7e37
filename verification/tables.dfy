/** Relational helpers over tables kept as sequences of rows in primary-key
    order: WHERE filters, `findOne` (the first matching row), ORDER BY ... DESC,
    and LIMIT/OFFSET paging. */
module Tables {
  import opened Base

  /** Keys strictly increase along the table (an auto-increment primary key). */
  ghost predicate StrictlyIncreasing<T>(s: seq<T>, key: T -> int)
  {
    forall i, j :: 0 <= i < j < |s| ==> key(s[i]) < key(s[j])
  }

  /** Keys strictly decrease along the sequence (ORDER BY key DESC over unique keys). */
  ghost predicate StrictlyDecreasing<T>(s: seq<T>, key: T -> int)
  {
    forall i, j :: 0 <= i < j < |s| ==> key(s[i]) > key(s[j])
  }

  /** The rows of `s` that satisfy `p`, in table order. */
  function Where<T>(s: seq<T>, p: T -> bool): (r: seq<T>)
    ensures |r| <= |s|
    ensures forall i :: 0 <= i < |r| ==> r[i] in s && p(r[i])
    ensures forall i :: 0 <= i < |s| && p(s[i]) ==> s[i] in r
    decreases |s|
  {
    if s == [] then []
    else if p(s[0]) then [s[0]] + Where(s[1..], p)
    else Where(s[1..], p)
  }

  /** Two filters that agree on every row of `s` select the same rows. */
  lemma {:induction false} WhereCongruent<T>(s: seq<T>, p: T -> bool, q: T -> bool)
    requires forall i :: 0 <= i < |s| ==> p(s[i]) == q(s[i])
    ensures Where(s, p) == Where(s, q)
    decreases |s|
  {
    if s != [] {
      WhereCongruent(s[1..], p, q);
    }
  }

  /** Filtering keeps the table order, so it keeps increasing keys increasing. */
  lemma {:induction false} WhereIncreasing<T>(s: seq<T>, p: T -> bool, key: T -> int)
    ensures StrictlyIncreasing(s, key) ==> StrictlyIncreasing(Where(s, p), key)
    decreases |s|
  {
    if s != [] && StrictlyIncreasing(s, key) {
      var rest := Where(s[1..], p);
      assert StrictlyIncreasing(s[1..], key) by {
        forall i, j | 0 <= i < j < |s[1..]|
          ensures key(s[1..][i]) < key(s[1..][j])
        {
          assert s[1..][i] == s[i + 1] && s[1..][j] == s[j + 1];
        }
      }
      WhereIncreasing(s[1..], p, key);
      if p(s[0]) {
        forall m | 0 <= m < |rest|
          ensures key(s[0]) < key(rest[m])
        {
          assert rest[m] in s[1..];
          var k :| 0 <= k < |s[1..]| && s[1..][k] == rest[m];
          assert rest[m] == s[k + 1];
        }
        var r := [s[0]] + rest;
        forall i, j | 0 <= i < j < |r|
          ensures key(r[i]) < key(r[j])
        {
          assert r[j] == rest[j - 1];
          if i > 0 {
            assert r[i] == rest[i - 1];
          }
        }
      }
    }
  }

  /** The index of the first row at or after `k` that satisfies `p`. */
  function FirstFrom<T>(s: seq<T>, p: T -> bool, k: nat): (r: Option<nat>)
    requires k <= |s|
    ensures r.Some? ==> k <= r.value < |s| && p(s[r.value])
    ensures r.Some? ==> forall j :: k <= j < r.value ==> !p(s[j])
    ensures r.None? ==> forall j :: k <= j < |s| ==> !p(s[j])
    decreases |s| - k
  {
    if k == |s| then None
    else if p(s[k]) then Some(k)
    else FirstFrom(s, p, k + 1)
  }

  /** `findOne`: the index of the first row that satisfies `p`, or `None`
      exactly when no row does. */
  function FirstWhere<T>(s: seq<T>, p: T -> bool): (r: Option<nat>)
    ensures r.Some? ==> r.value < |s| && p(s[r.value])
    ensures r.Some? ==> forall j :: 0 <= j < r.value ==> !p(s[j])
    ensures r.None? <==> forall j :: 0 <= j < |s| ==> !p(s[j])
  {
    FirstFrom(s, p, 0)
  }

  /** The sequence in the opposite order. */
  function Reverse<T>(s: seq<T>): (r: seq<T>)
    ensures |r| == |s|
    ensures forall i :: 0 <= i < |s| ==> r[i] == s[|s| - 1 - i]
  {
    seq(|s|, i requires 0 <= i < |s| => s[|s| - 1 - i])
  }

  /** Reading an id-ascending table backwards lists it id-descending. */
  lemma ReverseDecreasing<T>(s: seq<T>, key: T -> int)
    requires StrictlyIncreasing(s, key)
    ensures StrictlyDecreasing(Reverse(s), key)
  {
    var r := Reverse(s);
    forall i, j | 0 <= i < j < |r|
      ensures key(r[i]) > key(r[j])
    {
      assert r[i] == s[|s| - 1 - i] && r[j] == s[|s| - 1 - j];
    }
  }

  /** LIMIT `limit` OFFSET `offset`. */
  function Page<T>(s: seq<T>, offset: nat, limit: nat): (r: seq<T>)
    ensures |r| <= limit
    ensures |r| == if offset >= |s| then 0 else Min(limit, |s| - offset)
    ensures forall i :: 0 <= i < |r| ==> r[i] == s[offset + i]
  {
    if offset >= |s| then [] else s[offset .. offset + Min(limit, |s| - offset)]
  }

  /** Every row appears on the page its position falls in, and that page is
      one of the `CeilDiv(|s|, size)` pages reported to the client. */
  lemma PageCovers<T>(s: seq<T>, size: nat, i: nat) returns (page: nat, pos: nat)
    requires size > 0
    requires i < |s|
    ensures page * size + pos == i && pos < size
    ensures page < CeilDiv(|s|, size)
    ensures pos < |Page(s, page * size, size)|
    ensures Page(s, page * size, size)[pos] == s[i]
  {
    page, pos := i / size, i % size;
    assert page * size + pos == i;
    var n := CeilDiv(|s|, size);
    if n <= page {
      MulMonotone(n, page, size);
      assert false;
    }
  }

  lemma MulMonotone(a: nat, b: nat, c: nat)
    requires a <= b
    ensures a * c <= b * c
  {
  }

  /** The sequence with `f` applied to every element. */
  function MapSeq<T, U>(s: seq<T>, f: T --> U): (r: seq<U>)
    requires forall i :: 0 <= i < |s| ==> f.requires(s[i])
    ensures |r| == |s|
    ensures forall i :: 0 <= i < |s| ==> r[i] == f(s[i])
  {
    seq(|s|, i requires 0 <= i < |s| => f(s[i]))
  }
}
