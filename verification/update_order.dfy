/** The order in which the scan visits repositories: a stable sort on the
    last-update timestamp, oldest first (main.go:98-100). */
module UpdateOrder {
  import opened Repository

  /** Non-decreasing in `updatedAt`. */
  predicate Sorted(s: seq<Repo>) {
    forall i, j :: 0 <= i < j < |s| ==> s[i].updatedAt <= s[j].updatedAt
  }

  /** The records of `s` last updated at `t`, in the order `s` holds them. */
  function StampedAt(s: seq<Repo>, t: int): (r: seq<Repo>)
    ensures |r| <= |s|
  {
    if s == [] then []
    else (if s[0].updatedAt == t then [s[0]] else []) + StampedAt(s[1..], t)
  }

  /** `s` and `u` hold the same records with each timestamp, in the same
      relative order. Together with `Sorted`, this is what a stable sort
      promises about its output. */
  ghost predicate SameTies(s: seq<Repo>, u: seq<Repo>) {
    forall t :: StampedAt(s, t) == StampedAt(u, t)
  }

  /** Places `x` in front of the first record of `s` that is not older. */
  function Insert(x: Repo, s: seq<Repo>): (r: seq<Repo>)
    ensures |r| == |s| + 1
  {
    if s == [] || x.updatedAt <= s[0].updatedAt then [x] + s
    else [s[0]] + Insert(x, s[1..])
  }

  /** The reference stable sort: insertion sort by `updatedAt`. */
  function StableSortByUpdate(s: seq<Repo>): (r: seq<Repo>)
    ensures |r| == |s|
  {
    if s == [] then [] else Insert(s[0], StableSortByUpdate(s[1..]))
  }

  lemma {:induction false} StampedAtAppend(s: seq<Repo>, u: seq<Repo>, t: int)
    ensures StampedAt(s + u, t) == StampedAt(s, t) + StampedAt(u, t)
  {
    if s == [] {
      assert s + u == u;
    } else {
      var head := if s[0].updatedAt == t then [s[0]] else [];
      assert (s + u)[0] == s[0];
      assert (s + u)[1..] == s[1..] + u;
      calc {
        StampedAt(s + u, t);
        head + StampedAt(s[1..] + u, t);
        { StampedAtAppend(s[1..], u, t); }
        head + (StampedAt(s[1..], t) + StampedAt(u, t));
        (head + StampedAt(s[1..], t)) + StampedAt(u, t);
        StampedAt(s, t) + StampedAt(u, t);
      }
    }
  }

  /** Every record with timestamp `t` is kept, and nothing else. */
  lemma {:induction false} StampedAtMembers(s: seq<Repo>, t: int)
    ensures forall x :: x in StampedAt(s, t) <==> x in s && x.updatedAt == t
  {
    if s != [] {
      StampedAtMembers(s[1..], t);
      assert s == [s[0]] + s[1..];
    }
  }

  lemma {:induction false} InsertSorted(x: Repo, s: seq<Repo>)
    requires Sorted(s)
    ensures Sorted(Insert(x, s))
    ensures Insert(x, s) != [] && (Insert(x, s)[0] == x || (s != [] && Insert(x, s)[0] == s[0]))
  {
    if s != [] && x.updatedAt > s[0].updatedAt {
      InsertSorted(x, s[1..]);
    }
  }

  lemma {:induction false} InsertKeepsTies(x: Repo, s: seq<Repo>)
    ensures SameTies(Insert(x, s), [x] + s)
  {
    if s != [] && x.updatedAt > s[0].updatedAt {
      InsertKeepsTies(x, s[1..]);
      forall t ensures StampedAt(Insert(x, s), t) == StampedAt([x] + s, t) {
        calc {
          StampedAt(Insert(x, s), t);
          StampedAt([s[0]] + Insert(x, s[1..]), t);
          { StampedAtAppend([s[0]], Insert(x, s[1..]), t); }
          StampedAt([s[0]], t) + StampedAt(Insert(x, s[1..]), t);
          StampedAt([s[0]], t) + StampedAt([x] + s[1..], t);
          { StampedAtAppend([x], s[1..], t); StampedAtAppend([s[0]], s[1..], t);
            assert [s[0]] + s[1..] == s; }
          { // x and s[0] have different timestamps, so at most one is kept
            assert StampedAt([x], t) == [] || StampedAt([s[0]], t) == []; }
          StampedAt([x], t) + StampedAt(s, t);
          { StampedAtAppend([x], s, t); }
          StampedAt([x] + s, t);
        }
      }
    }
  }

  lemma {:induction false} InsertPermutes(x: Repo, s: seq<Repo>)
    ensures multiset(Insert(x, s)) == multiset([x] + s)
  {
    if s != [] && x.updatedAt > s[0].updatedAt {
      InsertPermutes(x, s[1..]);
      assert s == [s[0]] + s[1..];
    }
  }

  /** The reference sort is sorted, keeps the records of each timestamp in
      their input order, and is a permutation of its input. */
  lemma {:induction false} StableSortCorrect(s: seq<Repo>)
    ensures Sorted(StableSortByUpdate(s))
    ensures SameTies(StableSortByUpdate(s), s)
    ensures multiset(StableSortByUpdate(s)) == multiset(s)
  {
    if s != [] {
      var rest := StableSortByUpdate(s[1..]);
      StableSortCorrect(s[1..]);
      InsertSorted(s[0], rest);
      InsertKeepsTies(s[0], rest);
      InsertPermutes(s[0], rest);
      forall t ensures StampedAt(StableSortByUpdate(s), t) == StampedAt(s, t) {
        StampedAtAppend([s[0]], rest, t);
        StampedAtAppend([s[0]], s[1..], t);
        assert [s[0]] + s[1..] == s;
      }
      assert [s[0]] + s[1..] == s;
    }
  }

  /** A sorted sequence is determined by its records of each timestamp: any
      two stable sorts of the same input agree. */
  lemma {:induction false} SortedTiesUnique(s: seq<Repo>, u: seq<Repo>)
    requires Sorted(s) && Sorted(u) && SameTies(s, u)
    ensures s == u
    decreases |s|
  {
    if s == [] {
      if u != [] {
        assert false;
      }
    } else {
      var k := s[0].updatedAt;
      assert StampedAt(s, k)[0] == s[0];
      assert StampedAt(u, k) != [];
      StampedAtMembers(u, k);
      assert StampedAt(u, k)[0] in StampedAt(u, k);
      assert u != [];
      var m := u[0].updatedAt;
      assert StampedAt(u, m)[0] == u[0];
      StampedAtMembers(s, m);
      assert StampedAt(s, m)[0] in StampedAt(s, m);
      // s holds a record stamped m and u one stamped k; both start at their minimum
      assert k <= m;
      assert m <= k;
      assert s[0] == u[0];
      forall t ensures StampedAt(s[1..], t) == StampedAt(u[1..], t) {
        var head := if k == t then [s[0]] else [];
        assert StampedAt(s, t) == head + StampedAt(s[1..], t);
        assert StampedAt(u, t) == head + StampedAt(u[1..], t);
        assert StampedAt(s[1..], t) == StampedAt(s, t)[|head|..];
      }
      SortedTiesUnique(s[1..], u[1..]);
      assert s == [s[0]] + s[1..] && u == [u[0]] + u[1..];
    }
  }

  /** Sorts `a` in place, stably, oldest update first: the effect of
      sort.SliceStable with the strict comparison `Before` on `UpdatedAt`. */
  method SortByUpdate(a: array<Repo>)
    modifies a
    ensures Sorted(a[..])
    ensures SameTies(a[..], old(a[..]))
    ensures multiset(a[..]) == multiset(old(a[..]))
    ensures a[..] == StableSortByUpdate(old(a[..]))
  {
    var i := 0;
    while i < a.Length
      invariant 0 <= i <= a.Length
      invariant Sorted(a[..i])
      invariant SameTies(a[..], old(a[..]))
      invariant multiset(a[..]) == multiset(old(a[..]))
    {
      ghost var before := a[..];
      SinkInto(a, i);
      SameTiesTransitive(a[..], before, old(a[..]));
      i := i + 1;
    }
    assert a[..a.Length] == a[..];
    IsStableSort(a[..], old(a[..]));
  }

  /** Whatever is sorted and has the records of `input` per timestamp is the
      reference sort of `input`. */
  lemma IsStableSort(s: seq<Repo>, input: seq<Repo>)
    requires Sorted(s) && SameTies(s, input)
    ensures s == StableSortByUpdate(input)
  {
    StableSortCorrect(input);
    SameTiesTransitive(s, input, StableSortByUpdate(input));
    SortedTiesUnique(s, StableSortByUpdate(input));
  }

  /** `s[..i + 1]` is sorted except for a hole at `j`, whose record is
      strictly older than every record after it. */
  ghost predicate SortedAround(s: seq<Repo>, i: int, j: int)
    requires 0 <= j <= i < |s|
  {
    (forall p, q :: 0 <= p < q <= i && p != j && q != j ==> s[p].updatedAt <= s[q].updatedAt)
    && (forall q :: j < q <= i ==> s[j].updatedAt < s[q].updatedAt)
  }

  /** `s` with its records at `j - 1` and `j` exchanged. */
  function SwapAt(s: seq<Repo>, j: int): (r: seq<Repo>)
    requires 0 < j < |s|
    ensures |r| == |s| && r[j - 1] == s[j] && r[j] == s[j - 1]
    ensures forall m :: 0 <= m < |s| && m != j - 1 && m != j ==> r[m] == s[m]
  {
    s[j - 1 := s[j]][j := s[j - 1]]
  }

  lemma SortedAroundStart(s: seq<Repo>, i: int)
    requires 0 <= i < |s| && Sorted(s[..i])
    ensures SortedAround(s, i, i)
  {
    forall p, q | 0 <= p < q < i ensures s[p].updatedAt <= s[q].updatedAt {
      assert s[..i][p] == s[p] && s[..i][q] == s[q];
    }
  }

  lemma SortedAroundStep(s: seq<Repo>, i: int, j: int)
    requires 0 < j <= i < |s| && SortedAround(s, i, j)
    requires s[j].updatedAt < s[j - 1].updatedAt
    ensures SortedAround(SwapAt(s, j), i, j - 1)
  {
  }

  lemma SortedAroundEnd(s: seq<Repo>, i: int, j: int)
    requires 0 <= j <= i < |s| && SortedAround(s, i, j)
    requires j == 0 || s[j - 1].updatedAt <= s[j].updatedAt
    ensures Sorted(s[..i + 1])
  {
    forall p, q | 0 <= p < q <= i ensures s[p].updatedAt <= s[q].updatedAt {
      if p == j && 0 < j {
        assert s[p - 1].updatedAt <= s[p].updatedAt;
      }
    }
  }

  /** Moves `a[i]` left past every strictly newer record, extending the
      sorted prefix `a[..i]` by one; records never pass an equal timestamp,
      and nothing after `a[i]` moves. */
  method SinkInto(a: array<Repo>, i: int)
    requires 0 <= i < a.Length
    requires Sorted(a[..i])
    modifies a
    ensures Sorted(a[..i + 1])
    ensures SameTies(a[..i + 1], old(a[..i + 1]))
    ensures a[..i + 1] == StableSortByUpdate(old(a[..i + 1]))
    ensures a[i + 1..] == old(a[i + 1..])
    ensures SameTies(a[..], old(a[..]))
    ensures multiset(a[..]) == multiset(old(a[..]))
  {
    SortedAroundStart(a[..], i);
    var j := i;
    while j > 0 && a[j].updatedAt < a[j - 1].updatedAt
      invariant 0 <= j <= i
      invariant SortedAround(a[..], i, j)
      invariant SameTies(a[..i + 1], old(a[..i + 1]))
      invariant a[i + 1..] == old(a[i + 1..])
      invariant multiset(a[..]) == multiset(old(a[..]))
    {
      ghost var before := a[..];
      SortedAroundStep(before, i, j);
      SwapAdjacent(a, j);
      SwapWithinPrefix(before, old(a[..]), i, j);
      j := j - 1;
    }
    SortedAroundEnd(a[..], i, j);
    IsStableSort(a[..i + 1], old(a[..i + 1]));
    TiesFromPrefix(a[..], old(a[..]), i + 1);
  }

  /** Equal ties on a prefix and an equal remainder give equal ties overall. */
  lemma TiesFromPrefix(s: seq<Repo>, orig: seq<Repo>, n: int)
    requires 0 <= n <= |s| == |orig|
    requires SameTies(s[..n], orig[..n]) && s[n..] == orig[n..]
    ensures SameTies(s, orig)
  {
    assert s == s[..n] + s[n..] && orig == orig[..n] + orig[n..];
    forall t ensures StampedAt(s, t) == StampedAt(orig, t) {
      StampedAtAppend(s[..n], s[n..], t);
      StampedAtAppend(orig[..n], orig[n..], t);
    }
  }

  /** A swap at `j <= i` happens inside the prefix `s[..i + 1]`: it keeps the
      records per timestamp of that prefix and leaves the rest alone. */
  lemma SwapWithinPrefix(s: seq<Repo>, orig: seq<Repo>, i: int, j: int)
    requires 0 < j <= i < |s| == |orig| && s[j - 1].updatedAt != s[j].updatedAt
    requires SameTies(s[..i + 1], orig[..i + 1]) && s[i + 1..] == orig[i + 1..]
    ensures SameTies(SwapAt(s, j)[..i + 1], orig[..i + 1])
    ensures SwapAt(s, j)[i + 1..] == orig[i + 1..]
  {
    var r := SwapAt(s, j);
    assert r[..i + 1] == SwapAt(s[..i + 1], j);
    SwapKeepsTies(s[..i + 1], j);
    SameTiesTransitive(r[..i + 1], s[..i + 1], orig[..i + 1]);
  }

  lemma SameTiesTransitive(s: seq<Repo>, u: seq<Repo>, v: seq<Repo>)
    requires SameTies(s, u) && SameTies(u, v)
    ensures SameTies(s, v)
  {
    forall t ensures StampedAt(s, t) == StampedAt(v, t) {
      assert StampedAt(s, t) == StampedAt(u, t);
    }
  }

  /** Exchanging two neighbours with different timestamps keeps the records
      of every timestamp in the same order. */
  lemma SwapKeepsTies(s: seq<Repo>, j: int)
    requires 0 < j < |s| && s[j - 1].updatedAt != s[j].updatedAt
    ensures SameTies(SwapAt(s, j), s)
  {
    var pre, x, y, post := s[..j - 1], s[j - 1], s[j], s[j + 1..];
    assert s == pre + ([x] + ([y] + post));
    assert SwapAt(s, j) == pre + ([y] + ([x] + post));
    forall t ensures StampedAt(SwapAt(s, j), t) == StampedAt(s, t) {
      StampedAtAppend(pre, [x] + ([y] + post), t);
      StampedAtAppend([x], [y] + post, t);
      StampedAtAppend([y], post, t);
      StampedAtAppend(pre, [y] + ([x] + post), t);
      StampedAtAppend([y], [x] + post, t);
      StampedAtAppend([x], post, t);
    }
  }

  /** Swaps `a[j - 1]` and `a[j]`, which have different timestamps. */
  method SwapAdjacent(a: array<Repo>, j: int)
    requires 0 < j < a.Length
    requires a[j - 1].updatedAt != a[j].updatedAt
    modifies a
    ensures a[..] == SwapAt(old(a[..]), j)
    ensures SameTies(a[..], old(a[..]))
    ensures multiset(a[..]) == multiset(old(a[..]))
  {
    SwapKeepsTies(a[..], j);
    a[j - 1], a[j] := a[j], a[j - 1];
  }
}
