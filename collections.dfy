/** Sequence utilities the store model is built from: the optional value a
    lookup returns, filtering, first-match search, truncation, reversal, and
    the stable sort that stands for the order in which a database index
    yields its rows. */
module Collections {

  datatype Option<T> = None | Some(value: T)

  /** The elements of `s` that satisfy `p`, in their original order. */
  function Filter<T(!new)>(s: seq<T>, p: T -> bool): (r: seq<T>)
    ensures |r| <= |s|
    ensures forall x :: x in r <==> x in s && p(x)
  {
    if s == [] then []
    else if p(s[0]) then [s[0]] + Filter(s[1..], p)
    else Filter(s[1..], p)
  }

  /** The first element of `s` that satisfies `p`, if there is one. */
  function Find<T(!new)>(s: seq<T>, p: T -> bool): (r: Option<T>)
    ensures r.None? <==> forall x :: x in s ==> !p(x)
    ensures r.Some? ==> r.value in s && p(r.value)
    ensures r.Some? ==> exists i :: 0 <= i < |s| && s[i] == r.value && forall j :: 0 <= j < i ==> !p(s[j])
  {
    if s == [] then None
    else if p(s[0]) then Some(s[0])
    else
      var r := Find(s[1..], p);
      assert r.Some? ==> exists i :: 0 <= i < |s[1..]| && s[1..][i] == r.value && forall j :: 0 <= j < i ==> !p(s[1..][j]);
      assert r.Some? ==> exists i :: 1 <= i < |s| && s[i] == r.value && forall j :: 0 <= j < i ==> !p(s[j]) by {
        if r.Some? {
          var i :| 0 <= i < |s[1..]| && s[1..][i] == r.value && forall j :: 0 <= j < i ==> !p(s[1..][j]);
          assert s[i + 1] == r.value;
          assert forall j :: 0 <= j < i + 1 ==> !p(s[j]) by {
            forall j | 0 <= j < i + 1 ensures !p(s[j]) {
              if j > 0 { assert s[j] == s[1..][j - 1]; }
            }
          }
        }
      }
      r
  }

  /** The first `n` elements of `s`, or all of `s` when it is shorter
      (JavaScript `slice(0, n)`, Convex `take(n)`). */
  function Take<T>(s: seq<T>, n: nat): (r: seq<T>)
    ensures |r| == if |s| <= n then |s| else n
    ensures forall i :: 0 <= i < |r| ==> r[i] == s[i]
    ensures forall x :: x in r ==> x in s
  {
    if |s| <= n then s else s[..n]
  }

  /** `f` applied to every element of `s`, in order. */
  function Map<T(!new), U(!new)>(f: T -> U, s: seq<T>): (r: seq<U>)
    ensures |r| == |s|
    ensures forall i :: 0 <= i < |s| ==> r[i] == f(s[i])
  {
    seq(|s|, i requires 0 <= i < |s| => f(s[i]))
  }

  /** What `Map` holds: the image of each element and nothing else. */
  lemma MapMembers<T(!new), U(!new)>(f: T -> U, s: seq<T>)
    ensures forall x :: x in s ==> f(x) in Map(f, s)
    ensures forall y :: y in Map(f, s) ==> exists x :: x in s && y == f(x)
  {
    var r := Map(f, s);
    assert forall y :: y in r ==> exists i :: 0 <= i < |s| && y == r[i];
  }

  /** `Map` over a non-empty sequence: the head's image, then the rest. */
  lemma MapCons<T(!new), U(!new)>(f: T -> U, s: seq<T>)
    requires s != []
    ensures Map(f, s) == [f(s[0])] + Map(f, s[1..])
  {
  }

  /** How often `y` occurs in a sequence headed by `a`. */
  lemma CountCons<T>(a: T, s: seq<T>, y: T)
    ensures multiset([a] + s)[y] == (if a == y then 1 else 0) + multiset(s)[y]
  {
  }

  /** A `Map` that `g` undoes keeps every element's multiplicity. */
  lemma {:induction false} MapCountInjective<T(!new), U(!new)>(f: T -> U, g: U -> T, s: seq<T>, x: T)
    requires forall a :: g(f(a)) == a
    ensures multiset(Map(f, s))[f(x)] == multiset(s)[x]
  {
    if s != [] {
      MapCountInjective(f, g, s[1..], x);
      MapCons(f, s);
      CountCons(f(s[0]), Map(f, s[1..]), f(x));
      CountCons(s[0], s[1..], x);
      assert s == [s[0]] + s[1..];
      if s[0] != x {
        assert g(f(s[0])) != g(f(x));
      }
    }
  }

  /** `Map` yields `y` once for every element whose image is `y`;
      `p` picks out those elements. */
  lemma {:induction false} MapCount<T(!new), U(!new)>(f: T -> U, s: seq<T>, y: U, p: T -> bool)
    requires forall x :: p(x) == (f(x) == y)
    ensures multiset(Map(f, s))[y] == |Filter(s, p)|
  {
    if s != [] {
      MapCount(f, s[1..], y, p);
      MapCons(f, s);
    }
  }

  /** The values held by the `Some` entries of `s`, in order. */
  function Present<T(!new)>(s: seq<Option<T>>): (r: seq<T>)
    ensures |r| <= |s|
    ensures forall x :: x in r <==> Some(x) in s
    ensures (forall o :: o in s ==> o.Some?) ==> |r| == |s|
  {
    if s == [] then []
    else
      assert s == [s[0]] + s[1..] && s[0] in s;
      match s[0]
      case None => Present(s[1..])
      case Some(x) => [x] + Present(s[1..])
  }

  /** `Present` keeps every present value as often as it occurs. */
  lemma {:induction false} PresentCount<T(!new)>(s: seq<Option<T>>, x: T)
    ensures multiset(Present(s))[x] == multiset(s)[Some(x)]
  {
    if s != [] {
      PresentCount(s[1..], x);
      assert s == [s[0]] + s[1..];
      CountCons(s[0], s[1..], Some(x));
      match s[0]
      case None =>
        assert Present(s) == Present(s[1..]);
      case Some(y) =>
        assert Present(s) == [y] + Present(s[1..]);
        CountCons(y, Present(s[1..]), x);
    }
  }

  /** `s` back to front. */
  function Reverse<T>(s: seq<T>): (r: seq<T>)
    ensures |r| == |s|
    ensures forall i :: 0 <= i < |s| ==> r[i] == s[|s| - 1 - i]
  {
    if s == [] then [] else Reverse(s[1..]) + [s[0]]
  }

  /** The last `n` elements of `s`, or all of `s` when it is shorter. */
  function Last<T>(s: seq<T>, n: nat): (r: seq<T>)
    ensures |r| == if |s| <= n then |s| else n
    ensures forall i :: 0 <= i < |r| ==> r[i] == s[|s| - |r| + i]
  {
    if |s| <= n then s else s[|s| - n..]
  }

  /** Taking the first `n` of the reversed sequence and reversing them back
      gives its last `n`, in their original order. */
  lemma ReverseTakeReverse<T>(s: seq<T>, n: nat)
    ensures Reverse(Take(Reverse(s), n)) == Last(s, n)
  {
    var back := Reverse(s);
    var newest := Take(back, n);
    var r, l := Reverse(newest), Last(s, n);
    assert |r| == |l|;
    forall i | 0 <= i < |r| ensures r[i] == l[i] {
      var j := |r| - 1 - i;
      assert r[i] == newest[j] == back[j];
      assert back[j] == s[|s| - 1 - j];
    }
  }

  /** Reversal commutes with `Map`. */
  lemma ReverseMap<T(!new), U(!new)>(f: T -> U, s: seq<T>)
    ensures Reverse(Map(f, s)) == Map(f, Reverse(s))
  {
    var a, b := Reverse(Map(f, s)), Map(f, Reverse(s));
    forall i | 0 <= i < |a| ensures a[i] == b[i] {
      assert a[i] == Map(f, s)[|s| - 1 - i];
    }
  }

  /** Every earlier element is at most every later one under `le`. */
  predicate SortedBy<T>(s: seq<T>, le: (T, T) -> bool) {
    forall i, j :: 0 <= i < j < |s| ==> le(s[i], s[j])
  }

  /** `le` compares any two values and is transitive. */
  ghost predicate TotalPreorder<T(!new)>(le: (T, T) -> bool) {
    (forall a, b :: le(a, b) || le(b, a)) &&
    (forall a, b, c :: le(a, b) && le(b, c) ==> le(a, c))
  }

  /** Places `x` after every element of `s` that is at most `x`. */
  function Insert<T>(x: T, s: seq<T>, le: (T, T) -> bool): (r: seq<T>)
    ensures multiset(r) == multiset(s) + multiset{x}
  {
    if s == [] then [x]
    else if le(s[0], x) then
      assert s == [s[0]] + s[1..];
      [s[0]] + Insert(x, s[1..], le)
    else [x] + s
  }

  /** Insertion sort that keeps equal elements in their original order: the
      order in which an index yields rows whose keys tie, by insertion. */
  function SortBy<T(!new)>(s: seq<T>, le: (T, T) -> bool): (r: seq<T>)
    ensures |r| == |s|
    ensures multiset(r) == multiset(s)
    ensures forall x :: x in r <==> x in s
  {
    if s == [] then []
    else
      assert s == s[..|s| - 1] + [s[|s| - 1]];
      var r := Insert(s[|s| - 1], SortBy(s[..|s| - 1], le), le);
      assert forall x :: x in r <==> x in multiset(r);
      assert forall x :: x in s <==> x in multiset(s);
      r
  }

  /** Dropping the head of a sorted sequence leaves it sorted. */
  lemma SortedTail<T>(s: seq<T>, le: (T, T) -> bool)
    requires s != [] && SortedBy(s, le)
    ensures SortedBy(s[1..], le)
  {
    forall i, j | 0 <= i < j < |s[1..]| ensures le(s[1..][i], s[1..][j]) {
      assert s[1..][i] == s[i + 1] && s[1..][j] == s[j + 1];
    }
  }

  /** A head at most every element of a sorted sequence keeps it sorted. */
  lemma SortedCons<T>(a: T, s: seq<T>, le: (T, T) -> bool)
    requires SortedBy(s, le) && forall i :: 0 <= i < |s| ==> le(a, s[i])
    ensures SortedBy([a] + s, le)
  {
    var r := [a] + s;
    forall i, j | 0 <= i < j < |r| ensures le(r[i], r[j]) {
      assert r[j] == s[j - 1];
      if i > 0 {
        assert r[i] == s[i - 1];
      }
    }
  }

  /** Inserting keeps a lower bound that `x` and every element of `s` respect. */
  lemma {:induction false} InsertBounded<T>(x: T, s: seq<T>, le: (T, T) -> bool, lo: T)
    requires le(lo, x) && forall i :: 0 <= i < |s| ==> le(lo, s[i])
    ensures forall i :: 0 <= i < |Insert(x, s, le)| ==> le(lo, Insert(x, s, le)[i])
  {
    if s != [] && le(s[0], x) {
      assert forall i :: 0 <= i < |s[1..]| ==> s[1..][i] == s[i + 1];
      InsertBounded(x, s[1..], le, lo);
    } else if s != [] {
      var r := [x] + s;
      assert forall i :: 1 <= i < |r| ==> r[i] == s[i - 1];
    }
  }

  lemma {:induction false} InsertSorted<T(!new)>(x: T, s: seq<T>, le: (T, T) -> bool)
    requires TotalPreorder(le) && SortedBy(s, le)
    ensures SortedBy(Insert(x, s, le), le)
  {
    if s == [] {
    } else if le(s[0], x) {
      SortedTail(s, le);
      InsertSorted(x, s[1..], le);
      assert forall i :: 0 <= i < |s[1..]| ==> s[1..][i] == s[i + 1];
      InsertBounded(x, s[1..], le, s[0]);
      SortedCons(s[0], Insert(x, s[1..], le), le);
    } else {
      assert le(x, s[0]);
      forall i | 0 <= i < |s| ensures le(x, s[i]) {
        if i > 0 {
          assert le(s[0], s[i]);
        }
      }
      SortedCons(x, s, le);
    }
  }

  lemma {:induction false} SortBySorted<T(!new)>(s: seq<T>, le: (T, T) -> bool)
    requires TotalPreorder(le)
    ensures SortedBy(SortBy(s, le), le)
  {
    if s != [] {
      SortBySorted(s[..|s| - 1], le);
      InsertSorted(s[|s| - 1], SortBy(s[..|s| - 1], le), le);
    }
  }

  /** `p` holds exactly of the elements whose key ties with `k`'s under `le`. */
  ghost predicate TiesWith<T(!new)>(p: T -> bool, le: (T, T) -> bool, k: T) {
    forall x :: p(x) == (le(x, k) && le(k, x))
  }

  /** A predicate that holds of no element filters out everything. */
  lemma {:induction false} FilterNone<T(!new)>(s: seq<T>, p: T -> bool)
    requires forall x :: x in s ==> !p(x)
    ensures Filter(s, p) == []
  {
    if s != [] {
      FilterNone(s[1..], p);
    }
  }

  /** Filtering after prepending one element. */
  lemma FilterCons<T(!new)>(x: T, s: seq<T>, p: T -> bool)
    ensures Filter([x] + s, p) == (if p(x) then [x] else []) + Filter(s, p)
  {
    assert ([x] + s)[1..] == s;
  }

  /** A common head keeps one filtered sequence the other's prefix. */
  lemma FilterShift<T(!new)>(a: T, longer: seq<T>, shorter: seq<T>, tail: seq<T>, p: T -> bool)
    requires Filter(longer, p) == Filter(shorter, p) + tail
    ensures Filter([a] + longer, p) == Filter([a] + shorter, p) + tail
  {
    FilterCons(a, longer, p);
    FilterCons(a, shorter, p);
    AppendAssoc(if p(a) then [a] else [], Filter(shorter, p), tail);
  }

  lemma AppendAssoc<T>(a: seq<T>, b: seq<T>, c: seq<T>)
    ensures a + (b + c) == (a + b) + c
  {
  }

  /** When `x` sorts before the head of a sorted sequence, nothing in it
      ties with `x`. */
  lemma NoTiesAbove<T(!new)>(x: T, r: seq<T>, le: (T, T) -> bool, k: T, p: T -> bool)
    requires TotalPreorder(le) && SortedBy(r, le) && TiesWith(p, le, k)
    requires r != [] && !le(r[0], x) && p(x)
    ensures forall y :: y in r ==> !p(y)
  {
    forall y | y in r ensures !p(y) {
      var i :| 0 <= i < |r| && r[i] == y;
      assert le(r[0], y) by {
        if i > 0 { assert le(r[0], r[i]); }
      }
      assert p(y) ==> le(y, x);
    }
  }

  /** Inserting into a sorted sequence puts `x` after every element it ties
      with: among the elements tying with `k`, the order is the old order,
      then `x`. */
  lemma {:induction false} InsertStable<T(!new)>(x: T, r: seq<T>, le: (T, T) -> bool, k: T, p: T -> bool)
    requires TotalPreorder(le) && SortedBy(r, le) && TiesWith(p, le, k)
    ensures Filter(Insert(x, r, le), p) == Filter(r, p) + (if p(x) then [x] else [])
  {
    if r == [] {
      FilterCons(x, [], p);
    } else if le(r[0], x) {
      assert r == [r[0]] + r[1..];
      SortedTail(r, le);
      InsertStable(x, r[1..], le, k, p);
      FilterShift(r[0], Insert(x, r[1..], le), r[1..], if p(x) then [x] else [], p);
    } else {
      FilterCons(x, r, p);
      if p(x) {
        NoTiesAbove(x, r, le, k, p);
        FilterNone(r, p);
      }
    }
  }

  /** `SortBy` is stable: the elements whose keys tie with `k`'s come out in
      the order they went in. */
  lemma {:induction false} SortByStable<T(!new)>(s: seq<T>, le: (T, T) -> bool, k: T, p: T -> bool)
    requires TotalPreorder(le) && TiesWith(p, le, k)
    ensures Filter(SortBy(s, le), p) == Filter(s, p)
  {
    if s != [] {
      var init, last := s[..|s| - 1], s[|s| - 1];
      assert s == init + [last];
      SortByStable(init, le, k, p);
      SortBySorted(init, le);
      InsertStable(last, SortBy(init, le), le, k, p);
      FilterAppend(init, last, p);
    }
  }

  /** Filtering a sorted sequence leaves it sorted. */
  lemma {:induction false} FilterSorted<T(!new)>(s: seq<T>, p: T -> bool, le: (T, T) -> bool)
    requires SortedBy(s, le)
    ensures SortedBy(Filter(s, p), le)
  {
    if s != [] {
      var rest := Filter(s[1..], p);
      FilterSorted(s[1..], p, le);
      if p(s[0]) {
        var r := [s[0]] + rest;
        forall i, j | 0 <= i < j < |r| ensures le(r[i], r[j]) {
          assert r[j] == rest[j - 1];
          if i == 0 {
            assert rest[j - 1] in s[1..];
            var k :| 0 <= k < |s[1..]| && s[1..][k] == rest[j - 1];
            assert s[k + 1] == r[j];
          } else {
            assert r[i] == rest[i - 1];
          }
        }
      }
    }
  }

  /** `Filter` keeps each selected element as often as it occurs and drops
      every other element entirely. */
  lemma {:induction false} FilterCount<T(!new)>(s: seq<T>, p: T -> bool)
    ensures forall x :: multiset(Filter(s, p))[x] == if p(x) then multiset(s)[x] else 0
  {
    if s != [] {
      FilterCount(s[1..], p);
      assert s == [s[0]] + s[1..];
    }
  }

  /** `r` is `s` with some elements left out, the rest in their order. */
  ghost predicate Embeds<T>(r: seq<T>, s: seq<T>)
    decreases |s|
  {
    if r == [] then true
    else if s == [] then false
    else (r[0] == s[0] && Embeds(r[1..], s[1..])) || Embeds(r, s[1..])
  }

  /** `Filter` only leaves elements out: what it keeps stays in order. */
  lemma {:induction false} FilterEmbeds<T(!new)>(s: seq<T>, p: T -> bool)
    ensures Embeds(Filter(s, p), s)
  {
    if s != [] {
      FilterEmbeds(s[1..], p);
      var r := Filter(s, p);
      if p(s[0]) {
        assert r[0] == s[0] && r[1..] == Filter(s[1..], p);
      }
    }
  }

  /** Splitting by a predicate and its negation loses and duplicates nothing. */
  lemma {:induction false} FilterPartition<T(!new)>(s: seq<T>, p: T -> bool, q: T -> bool)
    requires forall x :: q(x) == !p(x)
    ensures |Filter(s, p)| + |Filter(s, q)| == |s|
  {
    if s != [] {
      FilterPartition(s[1..], p, q);
    }
  }

  /** Filtering twice is filtering once by the conjunction. */
  lemma {:induction false} FilterTwice<T(!new)>(s: seq<T>, p: T -> bool, q: T -> bool, pq: T -> bool)
    requires forall x :: pq(x) == (p(x) && q(x))
    ensures Filter(Filter(s, p), q) == Filter(s, pq)
  {
    if s != [] {
      FilterTwice(s[1..], p, q, pq);
      if p(s[0]) {
        assert Filter(s, p) == [s[0]] + Filter(s[1..], p);
        assert Filter(s, p)[1..] == Filter(s[1..], p);
      }
    }
  }

  /** Filtering distributes over appending one element. */
  lemma {:induction false} FilterAppend<T(!new)>(s: seq<T>, x: T, p: T -> bool)
    ensures Filter(s + [x], p) == Filter(s, p) + (if p(x) then [x] else [])
  {
    if s != [] {
      assert (s + [x])[1..] == s[1..] + [x];
      FilterAppend(s[1..], x, p);
    }
  }

  /** An element that every element of a sorted sequence is at most goes last. */
  lemma {:induction false} InsertAfterAll<T>(x: T, s: seq<T>, le: (T, T) -> bool)
    requires forall i :: 0 <= i < |s| ==> le(s[i], x)
    ensures Insert(x, s, le) == s + [x]
  {
    if s != [] {
      InsertAfterAll(x, s[1..], le);
      assert s == [s[0]] + s[1..];
    }
  }

  /** Two predicates that agree on the elements of `s` select the same elements. */
  lemma {:induction false} FilterCongruent<T(!new)>(s: seq<T>, p: T -> bool, q: T -> bool)
    requires forall x :: x in s ==> p(x) == q(x)
    ensures Filter(s, p) == Filter(s, q)
  {
    if s != [] {
      FilterCongruent(s[1..], p, q);
    }
  }

  /** A predicate that holds of every element filters nothing out. */
  lemma {:induction false} FilterKeepsAll<T(!new)>(s: seq<T>, p: T -> bool)
    requires forall x :: x in s ==> p(x)
    ensures Filter(s, p) == s
  {
    if s != [] {
      FilterKeepsAll(s[1..], p);
      assert s == [s[0]] + s[1..];
    }
  }

  /** Lexicographic order on strings, character by character; a proper
      prefix comes first. */
  predicate StringLe(a: string, b: string) {
    if a == [] then true
    else if b == [] then false
    else if a[0] != b[0] then a[0] < b[0]
    else StringLe(a[1..], b[1..])
  }

  lemma {:induction false} StringLeTotal(a: string, b: string)
    ensures StringLe(a, b) || StringLe(b, a)
  {
    if a != [] && b != [] && a[0] == b[0] {
      StringLeTotal(a[1..], b[1..]);
    }
  }

  lemma {:induction false} StringLeTransitive(a: string, b: string, c: string)
    requires StringLe(a, b) && StringLe(b, c)
    ensures StringLe(a, c)
  {
    if a != [] && b != [] && c != [] && a[0] == b[0] && b[0] == c[0] {
      StringLeTransitive(a[1..], b[1..], c[1..]);
    }
  }
}
