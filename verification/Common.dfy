/** Small things that several components share. */
module Common {

  datatype Option<T> = None | Some(value: T)

  const PAGE: nat := 4096

  /** PFN_UP */
  function PfnUp(n: nat): nat {
    (n + PAGE - 1) / PAGE
  }

  function Min(a: nat, b: nat): nat {
    if a < b then a else b
  }

  ghost predicate Distinct(s: seq<nat>) {
    forall i, j :: 0 <= i < j < |s| ==> s[i] != s[j]
  }

  function AsSet(s: seq<nat>): (r: set<nat>)
    ensures forall x :: x in r <==> x in s
  {
    set x | x in s
  }
}
