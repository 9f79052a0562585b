/** Failure-carrying values, message loopback, and facts about sets, shared by all modules. */
module Wrappers {
  datatype Option<+T> = None | Some(value: T)

  /** Whether d's messages reach r: always, unless r is d and nothing loops back. */
  predicate Reaches(loopback: bool, d: string, r: string) {
    loopback || d != r
  }

  lemma {:induction false} SetToSeq<T>(s: set<T>) returns (l: seq<T>)
    ensures |l| == |s| && forall x :: x in l <==> x in s
    ensures forall i, j :: 0 <= i < j < |l| ==> l[i] != l[j]
  {
    if s == {} {
      l := [];
    } else {
      var x :| x in s;
      var rest := SetToSeq(s - {x});
      l := rest + [x];
    }
  }

  lemma PutBack<T>(s: set<T>, x: T)
    requires x in s
    ensures s - {x} + {x} == s
    ensures |s| == |s - {x}| + 1
  {
  }
}
