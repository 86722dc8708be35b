/** What several components use. */
module Common {

  datatype Option<T> = None | Some(value: T)

  ghost predicate NoDup<T>(s: seq<T>) {
    forall i, j :: 0 <= i < j < |s| ==> s[i] != s[j]
  }

  /** The place after place `i` of a ring of `n` nodes. */
  function Up(i: nat, n: nat): nat
    requires i < n
  {
    if i + 1 < n then i + 1 else 0
  }

  /** The numbers from `lo` on, `n` of them. */
  function Interval(lo: nat, n: nat): (r: set<nat>)
    ensures forall p: nat :: p in r <==> lo <= p < lo + n
  {
    if n == 0 then {} else Interval(lo, n - 1) + {lo + n - 1}
  }

  lemma {:induction false} IntervalSize(lo: nat, n: nat)
    ensures |Interval(lo, n)| == n
  {
    hide Interval;
    IntervalStep(lo, n);
    if n > 0 {
      IntervalSize(lo, n - 1);
      OneMore(Interval(lo, n - 1), lo + n - 1);
    }
  }

  lemma IntervalStep(lo: nat, n: nat)
    ensures Interval(lo, 0) == {} && (n > 0 ==> Interval(lo, n) == Interval(lo, n - 1) + {lo + n - 1})
  {
  }

  lemma OneMore(s: set<nat>, x: nat)
    requires x !in s
    ensures |s + {x}| == |s| + 1
  {
  }

  lemma UnionSize(s: set<nat>, t: set<nat>)
    requires s !! t
    ensures |s + t| == |s| + |t| && {} + t == t
  {
  }
}
