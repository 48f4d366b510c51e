/** Small shared definitions. */
module Wrappers {
  datatype Option<+T> = None | Some(value: T)

  /** Where a sequence holds an element first. */
  function IndexOf<T(==)>(s: seq<T>, x: T): (k: nat)
    requires x in s
    ensures k < |s| && s[k] == x
  {
    if s[0] == x then 0 else 1 + IndexOf(s[1..], x)
  }

  ghost predicate Distinct<T>(s: seq<T>) {
    forall i, j :: 0 <= i < j < |s| ==> s[i] != s[j]
  }

  lemma ErasedElements<T>(s: seq<T>, k: nat)
    requires k < |s| && Distinct(s)
    ensures var r := s[..k] + s[k + 1..];
            Distinct(r) && forall x :: x in r <==> x in s && x != s[k]
  {
    var r := s[..k] + s[k + 1..];
    forall x | x in s && x != s[k] ensures x in r {
      var i :| 0 <= i < |s| && s[i] == x;
      assert r[if i < k then i else i - 1] == x;
    }
  }
}
