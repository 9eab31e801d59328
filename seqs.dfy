/** An optional value, and JavaScript `Set`s modelled as duplicate-free sequences in insertion order. */
module Seqs {

  datatype Option<+T> = None | Some(value: T)

  /** No element occurs twice. */
  ghost predicate NoDup<X>(s: seq<X>)
  {
    forall i, j :: 0 <= i < j < |s| ==> s[i] != s[j]
  }

  /** `Set.prototype.delete` on a set of ids: drops `x` and keeps the other elements. */
  function Remove(s: seq<nat>, x: nat): (r: seq<nat>)
    ensures forall y :: y in r <==> y in s && y != x
    ensures x !in s ==> r == s
    ensures NoDup(s) ==> NoDup(r)
    ensures NoDup(s) ==> |r| == if x in s then |s| - 1 else |s|
  {
    if s == [] then []
    else if s[0] == x then Remove(s[1..], x)
    else
      assert NoDup(s) ==> NoDup(s[1..]) && s[0] !in s[1..] by {
        if NoDup(s) {
          forall i, j | 0 <= i < j < |s[1..]| ensures s[1..][i] != s[1..][j] {
            assert s[1..][i] == s[i + 1] && s[1..][j] == s[j + 1];
          }
        }
      }
      [s[0]] + Remove(s[1..], x)
  }

  /** A prefix of a duplicate-free sequence is duplicate-free and misses the next element. */
  lemma NoDupPrefix<X>(s: seq<X>, i: nat)
    requires NoDup(s) && i < |s|
    ensures NoDup(s[..i]) && s[i] !in s[..i]
  {
    var p := s[..i];
    forall a, b | 0 <= a < b < |p| ensures p[a] != p[b] {
      assert p[a] == s[a] && p[b] == s[b];
    }
    forall a | 0 <= a < |p| ensures p[a] != s[i] {
      assert p[a] == s[a];
    }
  }
}
