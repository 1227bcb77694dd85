/**
  Small facts about slicing and concatenating strings. Each is stated on its
  own so that the proofs about the rewrites can cite it without having to
  reason about sequence extensionality in a large context.
*/
module Strings {

  lemma DropConcat(a: seq<char>, b: seq<char>, k: nat)
    requires k <= |a|
    ensures (a + b)[k..] == a[k..] + b
  {
  }

  lemma TakeConcat(a: seq<char>, b: seq<char>, k: nat)
    requires k <= |a|
    ensures (a + b)[..k] == a[..k]
  {
  }

  lemma Assoc(x: seq<char>, y: seq<char>, z: seq<char>)
    ensures x + (y + z) == (x + y) + z
  {
  }

  lemma EmptyConcat(a: seq<char>, b: seq<char>)
    requires |a| == 0
    ensures a + b == b
  {
  }

  lemma HeadTail(s: seq<char>)
    requires 0 < |s|
    ensures s == [s[0]] + s[1..]
  {
  }

  /** A string is its first `i` characters, the next `j - i`, and the rest. */
  lemma Split3(s: seq<char>, i: nat, j: nat)
    requires i <= j <= |s|
    ensures s == s[..i] + s[i..j] + s[j..]
  {
  }

  lemma NotInDrop(a: seq<char>, k: nat, c: char)
    requires k <= |a| && c !in a
    ensures c !in a[k..]
  {
    assert forall i | 0 <= i < |a| - k :: a[k..][i] == a[k + i];
  }

  /** A string is a prefix, a middle part ending in the character at `j`, and the rest. */
  lemma SplitAt(s: seq<char>, i: nat, j: nat)
    requires i <= j < |s|
    ensures s == s[..i] + (s[i..j] + [s[j]]) + s[j + 1..]
  {
    assert s[i..j] + [s[j]] == s[i..j + 1];
  }

  lemma NotInConcat(a: seq<char>, b: seq<char>, c: char)
    requires c !in a && c !in b
    ensures c !in a + b
  {
  }
}
