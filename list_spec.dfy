/** Specification functions shared by the singly and the doubly linked list:
    what reversing a list and removing a value do to the sequence of items.
    Both lists call their comparator as cmp(value, node item). */
module ListSpec {

  /** The items of `s` in the opposite order. */
  function Reverse<T>(s: seq<T>): (r: seq<T>)
    ensures |r| == |s|
  {
    if s == [] then [] else Reverse(s[1..]) + [s[0]]
  }

  /** Position k of the reversed sequence holds the k-th item from the end. */
  lemma {:induction false} ReverseAt<T>(s: seq<T>, k: nat)
    requires k < |s|
    ensures Reverse(s)[k] == s[|s| - 1 - k]
  {
    if k < |s| - 1 {
      ReverseAt(s[1..], k);
    }
  }

  /** Reversing twice gives back the original sequence. */
  lemma {:induction false} ReverseInvolution<T>(s: seq<T>)
    ensures Reverse(Reverse(s)) == s
  {
    forall k | 0 <= k < |s|
      ensures Reverse(Reverse(s))[k] == s[k]
    {
      ReverseAt(Reverse(s), k);
      ReverseAt(s, |s| - 1 - k);
    }
  }

  /** True when the comparator accepts `x` against item j of `s`. */
  predicate MatchAt<T>(s: seq<T>, x: T, cmp: (T, T) -> bool, j: int)
    requires 0 <= j < |s|
  {
    cmp(x, s[j])
  }

  /** The sequence with its first item matching `x` removed, if there is one. */
  function RemoveFirst<T>(s: seq<T>, x: T, cmp: (T, T) -> bool): (r: seq<T>)
    ensures |r| == |s| || |r| == |s| - 1
  {
    if s == [] then []
    else if cmp(x, s[0]) then s[1..]
    else [s[0]] + RemoveFirst(s[1..], x, cmp)
  }

  /** With no matching item, removing the first match changes nothing. */
  lemma {:induction false} RemoveFirstNoMatch<T>(s: seq<T>, x: T, cmp: (T, T) -> bool)
    requires forall j | 0 <= j < |s| :: !MatchAt(s, x, cmp, j)
    ensures RemoveFirst(s, x, cmp) == s
  {
    if s != [] {
      assert !MatchAt(s, x, cmp, 0);
      forall j | 0 <= j < |s| - 1
        ensures !MatchAt(s[1..], x, cmp, j)
      {
        assert !MatchAt(s, x, cmp, j + 1);
      }
      RemoveFirstNoMatch(s[1..], x, cmp);
    }
  }

  /** When item k is the first match, exactly item k is removed; later
      matches stay. */
  lemma {:induction false} RemoveFirstAt<T>(s: seq<T>, x: T, cmp: (T, T) -> bool, k: nat)
    requires k < |s| && MatchAt(s, x, cmp, k)
    requires forall j | 0 <= j < k :: !MatchAt(s, x, cmp, j)
    ensures RemoveFirst(s, x, cmp) == s[..k] + s[k + 1..]
  {
    if k > 0 {
      assert !MatchAt(s, x, cmp, 0);
      forall j | 0 <= j < k - 1
        ensures !MatchAt(s[1..], x, cmp, j)
      {
        assert !MatchAt(s, x, cmp, j + 1);
      }
      RemoveFirstAt(s[1..], x, cmp, k - 1);
      assert s[..k] + s[k + 1..] == [s[0]] + (s[1..][..k - 1] + s[1..][k..]);
    }
  }

  /** No node occurs twice in a chain. Stated recursively, so that the
      verifier unfolds it one level at a time; the lemmas below give the
      facts the list operations need. */
  ghost predicate Distinct<N>(ns: seq<N>)
  {
    ns == [] || ((forall j | 1 <= j < |ns| :: ns[j] != ns[0]) && Distinct(ns[1..]))
  }

  /** A chain is distinct exactly when its entries are pairwise different. */
  lemma {:induction false} DistinctPairwise<N>(ns: seq<N>)
    ensures Distinct(ns) <==> forall i, j | 0 <= i < j < |ns| :: ns[i] != ns[j]
  {
    if ns != [] {
      DistinctPairwise(ns[1..]);
      if Distinct(ns) {
        forall i, j | 0 <= i < j < |ns|
          ensures ns[i] != ns[j]
        {
          if i > 0 {
            assert ns[1..][i - 1] != ns[1..][j - 1];
          }
        }
      }
      if forall i, j | 0 <= i < j < |ns| :: ns[i] != ns[j] {
        forall i, j | 0 <= i < j < |ns| - 1
          ensures ns[1..][i] != ns[1..][j]
        {
          assert ns[i + 1] != ns[j + 1];
        }
      }
    }
  }

  /** The entry at k differs from every other entry. */
  lemma DistinctAt<N>(ns: seq<N>, k: int)
    requires Distinct(ns) && 0 <= k < |ns|
    ensures forall i | 0 <= i < |ns| && i != k :: ns[i] != ns[k]
  {
    DistinctPairwise(ns);
    forall i | 0 <= i < |ns| && i != k
      ensures ns[i] != ns[k]
    {
      if i < k {
        assert ns[i] != ns[k];
      } else {
        assert ns[k] != ns[i];
      }
    }
  }

  /** Removing the entry at k keeps a chain distinct. */
  lemma DistinctRemove<N>(ns: seq<N>, k: int)
    requires Distinct(ns) && 0 <= k < |ns|
    ensures Distinct(ns[..k] + ns[k + 1..])
  {
    DistinctPairwise(ns);
    var r := ns[..k] + ns[k + 1..];
    forall i, j | 0 <= i < j < |r|
      ensures r[i] != r[j]
    {
      var i', j' := if i < k then i else i + 1, if j < k then j else j + 1;
      assert r[i] == ns[i'] && r[j] == ns[j'];
    }
    DistinctPairwise(r);
  }

  /** Inserting a new entry at k keeps a chain distinct. */
  lemma DistinctInsert<N>(ns: seq<N>, k: int, x: N)
    requires Distinct(ns) && 0 <= k <= |ns|
    requires forall i | 0 <= i < |ns| :: ns[i] != x
    ensures Distinct(ns[..k] + [x] + ns[k..])
  {
    DistinctPairwise(ns);
    var r := ns[..k] + [x] + ns[k..];
    forall i, j | 0 <= i < j < |r|
      ensures r[i] != r[j]
    {
      if i < k {
        assert r[i] == ns[i];
      } else if i > k {
        assert r[i] == ns[i - 1];
      }
      if j < k {
        assert r[j] == ns[j];
      } else if j > k {
        assert r[j] == ns[j - 1];
      }
    }
    DistinctPairwise(r);
  }

  /** A reversed chain is distinct when the chain is. */
  lemma DistinctReverse<N>(ns: seq<N>)
    requires Distinct(ns)
    ensures Distinct(Reverse(ns))
  {
    DistinctPairwise(ns);
    var r := Reverse(ns);
    forall i, j | 0 <= i < j < |r|
      ensures r[i] != r[j]
    {
      ReverseAt(ns, i);
      ReverseAt(ns, j);
    }
    DistinctPairwise(r);
  }

  /** Where the entries of ns land when x is inserted at position k. */
  lemma InsertedAt<N>(ns: seq<N>, k: nat, x: N) returns (r: seq<N>)
    requires k <= |ns|
    ensures r == ns[..k] + [x] + ns[k..]
    ensures |r| == |ns| + 1 && r[k] == x
    ensures forall i | 0 <= i < k :: r[i] == ns[i]
    ensures forall i | k < i < |r| :: r[i] == ns[i - 1]
  {
    r := ns[..k] + [x] + ns[k..];
  }

  /** Where the entries of ns land when the one at position k is removed. */
  lemma RemovedAt<N>(ns: seq<N>, k: nat) returns (r: seq<N>)
    requires k < |ns|
    ensures r == ns[..k] + ns[k + 1..]
    ensures |r| == |ns| - 1
    ensures forall i | 0 <= i < k :: r[i] == ns[i]
    ensures forall i | k <= i < |r| :: r[i] == ns[i + 1]
  {
    r := ns[..k] + ns[k + 1..];
  }
}
