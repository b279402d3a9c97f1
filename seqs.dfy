/** Small sequence helpers shared by the resolver and the room model. */
module Seqs {

  datatype Option<T> = None | Some(value: T)

  /** No element occurs twice. */
  predicate NoDups<T(==)>(s: seq<T>)
  {
    forall i, j :: 0 <= i < j < |s| ==> s[i] != s[j]
  }

  /** Strictly ascending, as the index lists built by the round resolver are. */
  predicate Increasing(s: seq<nat>)
  {
    forall i, j :: 0 <= i < j < |s| ==> s[i] < s[j]
  }

  /** `s` with every occurrence of `x` dropped, the rest in their original order
      (Array.prototype.filter(y => y !== x)). */
  function Remove<T(==,!new)>(s: seq<T>, x: T): (r: seq<T>)
    ensures forall y :: y in r <==> y in s && y != x
    ensures |r| <= |s|
    ensures x !in s ==> r == s
    ensures NoDups(s) ==> NoDups(r)
    ensures NoDups(s) && x in s ==> |r| == |s| - 1
  {
    if s == [] then []
    else if s[0] == x then Remove(s[1..], x)
    else
      var tail := Remove(s[1..], x);
      assert NoDups(s) ==> s[0] !in s[1..];
      [s[0]] + tail
  }

  /** Removal keeps the remaining elements in their original order: removing
      from a concatenation removes from each part. */
  lemma {:induction false} RemoveAppend<T(!new)>(a: seq<T>, b: seq<T>, x: T)
    ensures Remove(a + b, x) == Remove(a, x) + Remove(b, x)
  {
    if a == [] {
      assert a + b == b;
    } else {
      assert (a + b)[0] == a[0] && (a + b)[1..] == a[1..] + b;
      RemoveAppend(a[1..], b, x);
    }
  }

  /** The first element of `Remove(s, x)` is the first element of `s` that differs from `x`. */
  lemma {:induction false} RemoveHead<T(!new)>(s: seq<T>, x: T)
    requires exists k :: 0 <= k < |s| && s[k] != x
    ensures |Remove(s, x)| > 0
    ensures exists k :: 0 <= k < |s| && s[k] == Remove(s, x)[0] && s[k] != x &&
                        forall j :: 0 <= j < k ==> s[j] == x
  {
    if s[0] == x {
      var k :| 0 <= k < |s| && s[k] != x;
      assert s[1..][k - 1] == s[k];
      RemoveHead(s[1..], x);
      var k' :| 0 <= k' < |s[1..]| && s[1..][k'] == Remove(s[1..], x)[0] && s[1..][k'] != x &&
                forall j :: 0 <= j < k' ==> s[1..][j] == x;
      assert s[k' + 1] == s[1..][k'];
      assert forall j :: 0 <= j < k' + 1 ==> s[j] == x by {
        forall j | 0 <= j < k' + 1 ensures s[j] == x {
          if j > 0 { assert s[j] == s[1..][j - 1]; }
        }
      }
    } else {
      assert Remove(s, x)[0] == s[0];
    }
  }
}
