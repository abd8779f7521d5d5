/** Bytes, text that stands at a position of a longer one, and text that an end mark cuts off. */
module Texts {

  type Byte = b: int | 0 <= b < 256

  ghost predicate Has<T>(s: seq<T>, p: nat, t: seq<T>) {
    p + |t| <= |s| && forall k | 0 <= k < |t| :: s[p + k] == t[k]
  }

  lemma HasJoin<T>(s: seq<T>, p: nat, t: seq<T>, u: seq<T>)
    requires Has(s, p, t + u)
    ensures Has(s, p, t) && Has(s, p + |t|, u)
  {
    forall k | 0 <= k < |t| ensures s[p + k] == t[k] {
      assert (t + u)[k] == t[k];
    }
    forall k | 0 <= k < |u| ensures s[p + |t| + k] == u[k] {
      assert (t + u)[|t| + k] == u[k];
    }
  }

  lemma HasBoth<T>(s: seq<T>, p: nat, t: seq<T>, u: seq<T>)
    requires Has(s, p, t) && Has(s, p + |t|, u)
    ensures Has(s, p, t + u)
  {
    forall k | 0 <= k < |t + u| ensures s[p + k] == (t + u)[k] {
      if k >= |t| { assert s[p + |t| + (k - |t|)] == u[k - |t|]; }
    }
  }

  lemma Regroup<T>(x: seq<T>, y: seq<T>, z: seq<T>)
    ensures x + (y + z) == (x + y) + z
  {
  }

  /** What stands before the first end mark, or everything. */
  function Upto<T(==)>(s: seq<T>, end: T): (r: seq<T>)
    ensures |r| <= |s| && r == s[..|r|] && end !in r && (|r| < |s| ==> s[|r|] == end)
  {
    if s == [] || s[0] == end then [] else [s[0]] + Upto(s[1..], end)
  }
}
