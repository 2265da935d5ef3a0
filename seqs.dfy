/** Generic sequence helpers used by the specifications. */
module Seqs {

  /** No element occurs twice. */
  ghost predicate Distinct<T>(s: seq<T>) {
    forall i, j :: 0 <= i < j < |s| ==> s[i] != s[j]
  }

  /** The set of elements of `s`. */
  function Elements<T>(s: seq<T>): set<T> {
    set x | x in s
  }

  /**
   * The elements of `s` in order of first occurrence, each once: the
   * indices a rejection loop over the draw stream `s` accepts.
   */
  function Dedup<T(==)>(s: seq<T>): (r: seq<T>)
    ensures Distinct(r)
    ensures Elements(r) == Elements(s)
    ensures |r| <= |s|
  {
    if s == [] then []
    else
      var prefix := Dedup(s[..|s| - 1]);
      var x := s[|s| - 1];
      assert Elements(s) == Elements(s[..|s| - 1]) + {x} by {
        assert s == s[..|s| - 1] + [x];
      }
      if x in prefix then prefix else prefix + [x]
  }

  /** Dedup of one more draw either ignores it (already seen) or appends it. */
  lemma DedupSnoc<T>(s: seq<T>, x: T)
    ensures Dedup(s + [x]) == if x in Elements(s) then Dedup(s) else Dedup(s) + [x]
  {
    assert (s + [x])[..|s + [x]| - 1] == s;
  }

  /** The first occurrences in a prefix are a prefix of the first occurrences in the whole. */
  lemma {:induction false} DedupPrefix<T>(s: seq<T>, k: nat)
    requires k <= |s|
    ensures Dedup(s[..k]) <= Dedup(s)
    decreases |s|
  {
    if k == |s| {
      assert s[..k] == s;
    } else {
      var front := s[..|s| - 1];
      assert s[..k] == front[..k];
      DedupPrefix(front, k);
      assert s == front + [s[|s| - 1]];
      DedupSnoc(front, s[|s| - 1]);
      assert Dedup(front) <= Dedup(s);
    }
  }

  /** When a prefix has fewer distinct elements than the whole, a new one appears later. */
  lemma {:induction false} FreshLater<T>(s: seq<T>, pos: nat)
    requires pos <= |s|
    requires |Elements(s[..pos])| < |Elements(s)|
    ensures exists j :: pos <= j < |s| && s[j] !in Elements(s[..pos])
  {
    assert s == s[..pos] + s[pos..];
    if forall j :: pos <= j < |s| ==> s[j] in Elements(s[..pos]) {
      assert Elements(s) <= Elements(s[..pos]) by {
        forall x | x in Elements(s) ensures x in Elements(s[..pos]) {
          var k :| 0 <= k < |s| && s[k] == x;
          if k >= pos { assert s[k] in Elements(s[..pos]); }
          else { assert s[..pos][k] == x; }
        }
      }
      SubsetCard(Elements(s), Elements(s[..pos]));
      assert false;
    }
  }

  lemma SubsetCard<T>(a: set<T>, b: set<T>)
    requires a <= b
    ensures |a| <= |b|
  {
    if a != {} {
      var x :| x in a;
      SubsetCard(a - {x}, b - {x});
    }
  }

  /** Cardinality of the elements of a duplicate-free sequence. */
  lemma {:induction false} DistinctCard<T>(s: seq<T>)
    requires Distinct(s)
    ensures |Elements(s)| == |s|
  {
    if s != [] {
      var p := s[..|s| - 1];
      assert s == p + [s[|s| - 1]];
      assert Elements(s) == Elements(p) + {s[|s| - 1]};
      assert s[|s| - 1] !in Elements(p);
      DistinctCard(p);
    }
  }

  /** Concatenation regroups. */
  lemma SeqAssoc<T>(a: seq<T>, b: seq<T>, c: seq<T>)
    ensures (a + b) + c == a + (b + c)
  {
  }

  /** A concatenation with a non-empty right side is its front followed by its last element. */
  lemma ConcatSnoc<T>(a: seq<T>, b: seq<T>)
    requires b != []
    ensures a + b == (a + b[..|b| - 1]) + [b[|b| - 1]]
  {
    assert b == b[..|b| - 1] + [b[|b| - 1]];
  }

  /** Taking one more element of a sequence: its elements and first occurrences grow by at most that element. */
  lemma DedupTake<T>(s: seq<T>, p: nat)
    requires p < |s|
    ensures Elements(s[..p + 1]) == Elements(s[..p]) + {s[p]}
    ensures Dedup(s[..p + 1]) == if s[p] in Elements(s[..p]) then Dedup(s[..p]) else Dedup(s[..p]) + [s[p]]
  {
    assert s[..p + 1] == s[..p] + [s[p]];
    DedupSnoc(s[..p], s[p]);
  }

  /** Elements already seen add nothing: neither new elements nor new first occurrences. */
  lemma {:induction false} SeenTail<T>(s: seq<T>, a: nat, b: nat)
    requires a <= b <= |s|
    requires forall k :: a <= k < b ==> s[k] in Elements(s[..a])
    ensures Elements(s[..b]) == Elements(s[..a]) && Dedup(s[..b]) == Dedup(s[..a])
    decreases b - a
  {
    if b > a {
      SeenTail(s, a, b - 1);
      DedupTake(s, b - 1);
      assert s[b - 1] in Elements(s[..b - 1]);
    }
  }
}
