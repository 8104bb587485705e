/** Order-preserving selection over sequences: the model of JavaScript's
    `Array.prototype.filter`, which the phonebook uses both to delete contacts
    and to compute the visible list. */
module Sequences {

  /** The elements of `s` that satisfy `p`, in their original order. */
  function Keep<T(!new)>(s: seq<T>, p: T -> bool): (r: seq<T>)
    ensures |r| <= |s|
    ensures forall x :: x in r <==> x in s && p(x)
  {
    if s == [] then []
    else (if p(s[0]) then [s[0]] else []) + Keep(s[1..], p)
  }

  /** `idx` lists, in strictly increasing order, positions of `s` at which
      the elements of `r` are found. */
  ghost predicate Embeds<T(!new)>(r: seq<T>, s: seq<T>, idx: seq<nat>) {
    && |idx| == |r|
    && (forall k :: 0 <= k < |idx| ==> idx[k] < |s| && r[k] == s[idx[k]])
    && (forall j, k :: 0 <= j < k < |idx| ==> idx[j] < idx[k])
  }

  /** `r` is obtained from `s` by deleting some elements, without reordering. */
  ghost predicate IsSubsequence<T(!new)>(r: seq<T>, s: seq<T>) {
    exists idx :: Embeds(r, s, idx)
  }

  /** Positions shifted one to the right, for a sequence that gained a head. */
  function Shift(idx: seq<nat>): (r: seq<nat>)
    ensures |r| == |idx|
    ensures forall k :: 0 <= k < |idx| ==> r[k] == idx[k] + 1
  {
    seq(|idx|, k requires 0 <= k < |idx| => idx[k] + 1)
  }

  /** A subsequence stays one when the outer sequence gains a head. */
  lemma EmbedsSkip<T(!new)>(x: T, r: seq<T>, s: seq<T>, idx: seq<nat>)
    requires Embeds(r, s, idx)
    ensures Embeds(r, [x] + s, Shift(idx))
  {
    var idx' := Shift(idx);
    forall k | 0 <= k < |idx'|
      ensures idx'[k] < |[x] + s| && r[k] == ([x] + s)[idx'[k]]
    {
      assert ([x] + s)[idx[k] + 1] == s[idx[k]];
    }
  }

  /** A subsequence stays one when both sequences gain the same head. */
  lemma EmbedsCons<T(!new)>(x: T, r: seq<T>, s: seq<T>, idx: seq<nat>)
    requires Embeds(r, s, idx)
    ensures Embeds([x] + r, [x] + s, [0] + Shift(idx))
  {
    var idx' := [0] + Shift(idx);
    forall k | 0 <= k < |idx'|
      ensures idx'[k] < |[x] + s| && ([x] + r)[k] == ([x] + s)[idx'[k]]
    {
      if k > 0 {
        assert idx'[k] == idx[k - 1] + 1;
        assert ([x] + s)[idx[k - 1] + 1] == s[idx[k - 1]];
      }
    }
  }

  /** Keep never reorders: its result is a subsequence of its input. */
  lemma {:induction false} KeepIsSubsequence<T(!new)>(s: seq<T>, p: T -> bool)
    ensures IsSubsequence(Keep(s, p), s)
  {
    if s == [] {
      assert Embeds(Keep(s, p), s, []);
    } else {
      KeepIsSubsequence(s[1..], p);
      var tail := Keep(s[1..], p);
      var idx :| Embeds(tail, s[1..], idx);
      assert s == [s[0]] + s[1..];
      if p(s[0]) {
        EmbedsCons(s[0], tail, s[1..], idx);
        assert Embeds(Keep(s, p), s, [0] + Shift(idx));
      } else {
        EmbedsSkip(s[0], tail, s[1..], idx);
        assert Embeds(Keep(s, p), s, Shift(idx));
      }
    }
  }

  /** Every sequence is a subsequence of itself. */
  lemma SubsequenceRefl<T(!new)>(s: seq<T>)
    ensures IsSubsequence(s, s)
  {
    var idx: seq<nat> := seq(|s|, k requires 0 <= k < |s| => k);
    assert Embeds(s, s, idx);
  }

  /** A subsequence of a subsequence is a subsequence. */
  lemma SubsequenceTrans<T(!new)>(a: seq<T>, b: seq<T>, c: seq<T>)
    requires IsSubsequence(a, b) && IsSubsequence(b, c)
    ensures IsSubsequence(a, c)
  {
    var i :| Embeds(a, b, i);
    var j :| Embeds(b, c, j);
    var idx: seq<nat> := seq(|i|, k requires 0 <= k < |i| => j[i[k]]);
    assert Embeds(a, c, idx);
  }

  /** Appending the same tail to both sides keeps a subsequence one. */
  lemma SubsequenceAppend<T(!new)>(r: seq<T>, s: seq<T>, t: seq<T>)
    requires IsSubsequence(r, s)
    ensures IsSubsequence(r + t, s + t)
  {
    var i :| Embeds(r, s, i);
    var idx: seq<nat> := i + seq(|t|, k requires 0 <= k < |t| => |s| + k);
    forall k | 0 <= k < |idx|
      ensures idx[k] < |s + t| && (r + t)[k] == (s + t)[idx[k]]
    {
      if k >= |i| {
        assert idx[k] == |s| + (k - |i|);
      }
    }
    assert Embeds(r + t, s + t, idx);
  }

  /** An element of the tail is an element of the sequence. */
  lemma InTail<T(!new)>(s: seq<T>, x: T)
    requires s != [] && x in s[1..]
    ensures x in s
  {
    var k :| 0 <= k < |s[1..]| && s[1..][k] == x;
    assert s[k + 1] == x;
  }

  /** When every element passes, Keep returns its input unchanged. */
  lemma {:induction false} KeepAll<T(!new)>(s: seq<T>, p: T -> bool)
    requires forall x :: x in s ==> p(x)
    ensures Keep(s, p) == s
  {
    if s != [] {
      assert p(s[0]) by {
        assert s[0] in s;
      }
      forall x | x in s[1..] ensures p(x) {
        InTail(s, x);
      }
      KeepAll(s[1..], p);
      assert s == [s[0]] + s[1..];
    }
  }

  /** Predicates that agree on the elements of `s` keep the same elements. */
  lemma {:induction false} KeepCongruent<T(!new)>(s: seq<T>, p: T -> bool, q: T -> bool)
    requires forall x :: x in s ==> p(x) == q(x)
    ensures Keep(s, p) == Keep(s, q)
  {
    if s != [] {
      assert p(s[0]) == q(s[0]) by {
        assert s[0] in s;
      }
      forall x | x in s[1..] ensures p(x) == q(x) {
        InTail(s, x);
      }
      KeepCongruent(s[1..], p, q);
    }
  }

  /** Keeping twice with the same predicate is keeping once. */
  lemma KeepIdempotent<T(!new)>(s: seq<T>, p: T -> bool)
    ensures Keep(Keep(s, p), p) == Keep(s, p)
  {
    KeepAll(Keep(s, p), p);
  }

  /** Keep distributes over concatenation. */
  lemma {:induction false} KeepAppend<T(!new)>(s: seq<T>, t: seq<T>, p: T -> bool)
    ensures Keep(s + t, p) == Keep(s, p) + Keep(t, p)
  {
    if s == [] {
      assert s + t == t;
    } else {
      assert (s + t)[1..] == s[1..] + t;
      KeepAppend(s[1..], t, p);
    }
  }

  /** Keep on a one-element sequence. */
  lemma KeepSingle<T(!new)>(x: T, p: T -> bool)
    ensures Keep([x], p) == if p(x) then [x] else []
  {
    assert [x][1..] == [];
  }

  /** Number of elements of `s` that satisfy `p`. */
  function Count<T(!new)>(s: seq<T>, p: T -> bool): (n: nat)
    ensures n <= |s|
    ensures n == 0 <==> forall x :: x in s ==> !p(x)
  {
    if s == [] then 0
    else (if p(s[0]) then 1 else 0) + Count(s[1..], p)
  }

  /** Keep drops exactly the elements that fail `p`. */
  lemma {:induction false} KeepLength<T(!new)>(s: seq<T>, p: T -> bool)
    ensures |Keep(s, p)| == Count(s, p)
  {
    if s != [] {
      KeepLength(s[1..], p);
    }
  }
}
