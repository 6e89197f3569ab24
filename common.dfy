/** Shared vocabulary of the model: optional values, handler outcomes, the toggle primitive
    that Follow, Like and CommentLike share, and id listings in creation order. */
module Common {

  datatype Option<T> = None | Some(value: T)

  /** The failure kinds the request handlers report. */
  datatype Error =
    | MissingField   // HTTP 400: a required request field is absent or falsy
    | Invalid        // HTTP 400: the serializer rejects a field
    | SelfReference  // HTTP 400: the caller targets itself
    | Duplicate      // HTTP 400: a uniqueness rule would be broken
    | NotFound       // HTTP 404: the referenced row is absent or not visible to the caller
    | Unauthorized   // HTTP 401: credentials rejected
    | Unhandled      // HTTP 500: the handler raises an exception it does not catch

  datatype Result<T> = Ok(value: T) | Err(error: Error)

  /** The HTTP status code each failure kind is answered with. */
  function HttpStatus(e: Error): int
  {
    match e
    case MissingField => 400
    case Invalid => 400
    case SelfReference => 400
    case Duplicate => 400
    case NotFound => 404
    case Unauthorized => 401
    case Unhandled => 500
  }

  /** Create-if-absent / delete-if-present on a relation whose rows are unique. */
  function Toggle<T(==)>(s: set<T>, x: T): (r: set<T>)
    ensures x in r <==> x !in s
    ensures r - {x} == s - {x}
  {
    if x in s then s - {x} else s + {x}
  }

  lemma ToggleTwice<T>(s: set<T>, x: T)
    ensures Toggle(Toggle(s, x), x) == s
  {
  }

  /** A subset is no larger than the set it lies in. */
  lemma SubsetCardinality<T>(a: set<T>, b: set<T>)
    requires a <= b
    ensures |a| <= |b|
  {
    assert b == a + (b - a);
  }

  /** The rows of a pair relation whose second component is `b`
      (the likes of one post, the followers of one user). */
  function PairsWith<A(==), B(==)>(rel: set<(A, B)>, b: B): (r: set<(A, B)>)
    ensures r <= rel
    ensures forall p :: p in rel && p.1 == b ==> p in r
    ensures forall p :: p in r ==> p.1 == b
  {
    set p | p in rel && p.1 == b
  }

  /** The rows of a pair relation whose first component is `a` (whom one user follows). */
  function PairsFrom<A(==), B(==)>(rel: set<(A, B)>, a: A): (r: set<(A, B)>)
    ensures r <= rel
    ensures forall p :: p in rel && p.0 == a ==> p in r
    ensures forall p :: p in r ==> p.0 == a
  {
    set p | p in rel && p.0 == a
  }

  /** Toggling the row (a, b) moves the number of rows targeting b by exactly one, in the
      direction the toggle went, and leaves every other target's number alone. */
  lemma {:induction false} PairsWithToggle<A, B>(rel: set<(A, B)>, a: A, b: B, c: B)
    ensures |PairsWith(Toggle(rel, (a, b)), c)| ==
      if c != b then |PairsWith(rel, c)|
      else if (a, b) in rel then |PairsWith(rel, c)| - 1
      else |PairsWith(rel, c)| + 1
  {
    var before, after := PairsWith(rel, c), PairsWith(Toggle(rel, (a, b)), c);
    if c != b {
      assert after == before;
    } else if (a, b) in rel {
      assert before == after + {(a, b)};
    } else {
      assert after == before + {(a, b)};
    }
  }

  /** The same for the rows leaving a: toggling (a, b) moves |PairsFrom(_, a)| by one. */
  lemma {:induction false} PairsFromToggle<A, B>(rel: set<(A, B)>, a: A, b: B, c: A)
    ensures |PairsFrom(Toggle(rel, (a, b)), c)| ==
      if c != a then |PairsFrom(rel, c)|
      else if (a, b) in rel then |PairsFrom(rel, c)| - 1
      else |PairsFrom(rel, c)| + 1
  {
    var before, after := PairsFrom(rel, c), PairsFrom(Toggle(rel, (a, b)), c);
    if c != a {
      assert after == before;
    } else if (a, b) in rel {
      assert before == after + {(a, b)};
    } else {
      assert after == before + {(a, b)};
    }
  }

  /** No element occurs twice, as in a queryset. */
  predicate Distinct<T(==)>(s: seq<T>)
  {
    forall i, j :: 0 <= i < j < |s| ==> s[i] != s[j]
  }

  /** An element put before a list without repeats that does not hold it makes none. */
  lemma DistinctCons<T>(x: T, s: seq<T>)
    ensures x !in s && Distinct(s) ==> Distinct([x] + s)
  {
    if x !in s && Distinct(s) {
      var r := [x] + s;
      forall i, j | 0 <= i < j < |r| ensures r[i] != r[j] {
        assert r[j] == s[j - 1];
        if i > 0 {
          assert r[i] == s[i - 1];
        }
      }
    }
  }

  /** Without repeats, the head is not in the tail and the tail has no repeats either. */
  lemma DistinctTail<T>(s: seq<T>)
    requires s != []
    ensures Distinct(s) ==> s[0] !in s[1..] && Distinct(s[1..])
  {
    if Distinct(s) {
      forall i | 0 <= i < |s[1..]| ensures s[1..][i] != s[0] {
        assert s[1..][i] == s[i + 1];
      }
    }
  }

  /** The ids below n that satisfy keep, oldest first (ORDER BY created_at). */
  function Ascending(n: nat, keep: nat -> bool): (r: seq<nat>)
    ensures forall i :: 0 <= i < |r| ==> r[i] < n && keep(r[i])
    ensures forall k :: 0 <= k < n && keep(k) ==> k in r
    ensures forall i, j :: 0 <= i < j < |r| ==> r[i] < r[j]
  {
    if n == 0 then [] else Ascending(n - 1, keep) + (if keep(n - 1) then [n - 1] else [])
  }

  /** The ids below n that satisfy keep, newest first (ORDER BY created_at DESC). */
  function Descending(n: nat, keep: nat -> bool): (r: seq<nat>)
    ensures forall i :: 0 <= i < |r| ==> r[i] < n && keep(r[i])
    ensures forall k :: 0 <= k < n && keep(k) ==> k in r
    ensures forall i, j :: 0 <= i < j < |r| ==> r[i] > r[j]
  {
    if n == 0 then [] else (if keep(n - 1) then [n - 1] else []) + Descending(n - 1, keep)
  }

  /** Two filters that agree below n select the same ids. */
  lemma {:induction false} AscendingAgree(n: nat, f: nat -> bool, g: nat -> bool)
    requires forall k :: 0 <= k < n ==> f(k) == g(k)
    ensures Ascending(n, f) == Ascending(n, g)
  {
    if n > 0 {
      AscendingAgree(n - 1, f, g);
    }
  }

  /** A listing is empty exactly when no id below n is kept. */
  lemma {:induction false} AscendingEmpty(n: nat, keep: nat -> bool)
    ensures Ascending(n, keep) == [] <==> forall k :: 0 <= k < n ==> !keep(k)
  {
    if n > 0 {
      AscendingEmpty(n - 1, keep);
    }
  }

  /** The newest id below n that satisfies keep: `.last()` of an ascending listing. */
  function Latest(n: nat, keep: nat -> bool): (r: Option<nat>)
    ensures r.Some? ==> r.value < n && keep(r.value)
    ensures r.Some? ==> forall k :: r.value < k < n ==> !keep(k)
    ensures r.None? <==> forall k :: 0 <= k < n ==> !keep(k)
  {
    if n == 0 then None else if keep(n - 1) then Some(n - 1) else Latest(n - 1, keep)
  }
}
