// The min-heap used by Dijkstra and A*, modelled by what heappush and heappop promise rather
// than by the binary-heap array layout: entries form a multiset, heappush adds one, and heappop
// removes one that is smallest under the tuple order. Entries are compared through a key, the
// tuple written out as a sequence of integers.

module PriorityQueue {

  /** Tuple order: a <= b, comparing element by element; a proper prefix is smaller. */
  predicate LexLeq(a: seq<int>, b: seq<int>)
  {
    |a| == 0 || (|b| > 0 && (a[0] < b[0] || (a[0] == b[0] && LexLeq(a[1..], b[1..]))))
  }

  /** Every key is below itself. */
  lemma {:induction false} LexLeqRefl(a: seq<int>)
    ensures LexLeq(a, a)
  {
    if |a| > 0 {
      LexLeqRefl(a[1..]);
    }
  }

  /** Any two keys are comparable. */
  lemma {:induction false} LexLeqTotal(a: seq<int>, b: seq<int>)
    ensures LexLeq(a, b) || LexLeq(b, a)
  {
    if |a| > 0 && |b| > 0 && a[0] == b[0] {
      LexLeqTotal(a[1..], b[1..]);
    }
  }

  /** The order is transitive. */
  lemma {:induction false} LexLeqTrans(a: seq<int>, b: seq<int>, c: seq<int>)
    requires LexLeq(a, b) && LexLeq(b, c)
    ensures LexLeq(a, c)
  {
    if |a| > 0 && a[0] == b[0] && b[0] == c[0] {
      LexLeqTrans(a[1..], b[1..], c[1..]);
    }
  }

  /** The order is antisymmetric: two keys below each other are equal. */
  lemma {:induction false} LexLeqAntisym(a: seq<int>, b: seq<int>)
    requires LexLeq(a, b) && LexLeq(b, a)
    ensures a == b
  {
    if |a| > 0 {
      LexLeqAntisym(a[1..], b[1..]);
      assert a == [a[0]] + a[1..] && b == [b[0]] + b[1..];
    }
  }

  /** Taking the entry at m out of a sequence leaves the other entries. */
  lemma RemoveAt<T>(s: seq<T>, m: nat)
    requires m < |s|
    ensures multiset(s) == multiset(s[..m] + s[m + 1..]) + multiset{s[m]}
  {
    assert s == s[..m] + [s[m]] + s[m + 1..];
  }

  /**
   * heappop: remove and return an entry whose key is smallest. When keys determine entries,
   * that entry is the unique minimum, so the choice among equal keys does not matter.
   */
  method PopMin<T>(heap: seq<T>, key: T -> seq<int>) returns (top: T, rest: seq<T>)
    requires |heap| > 0
    ensures multiset(heap) == multiset(rest) + multiset{top} && |rest| == |heap| - 1
    ensures forall e :: e in heap ==> LexLeq(key(top), key(e))
  {
    var m := 0;
    LexLeqRefl(key(heap[0]));
    for i := 1 to |heap|
      invariant m < i
      invariant forall j :: 0 <= j < i ==> LexLeq(key(heap[m]), key(heap[j]))
    {
      if !LexLeq(key(heap[m]), key(heap[i])) {
        LexLeqTotal(key(heap[m]), key(heap[i]));
        forall j | 0 <= j < i
          ensures LexLeq(key(heap[i]), key(heap[j]))
        {
          LexLeqTrans(key(heap[i]), key(heap[m]), key(heap[j]));
        }
        LexLeqRefl(key(heap[i]));
        m := i;
      }
    }
    top := heap[m];
    rest := heap[..m] + heap[m + 1..];
    RemoveAt(heap, m);
  }
}
