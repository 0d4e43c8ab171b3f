/** Reversal of a sequence: a reference definition and the in-place swap
    loop the namespace derivation runs over the subdomain components. */
module Sequences {

  /** The reverse of `s`: element `k` of the result is element
      `|s| - 1 - k` of `s`. */
  function Reverse<T>(s: seq<T>): (r: seq<T>)
    ensures |r| == |s|
    ensures forall k :: 0 <= k < |s| ==> r[k] == s[|s| - 1 - k]
  {
    if |s| == 0 then [] else Reverse(s[1..]) + [s[0]]
  }

  /** Reversing twice gives back the original sequence. */
  lemma ReverseInvolutive<T>(s: seq<T>)
    ensures Reverse(Reverse(s)) == s
  {
    var rr := Reverse(Reverse(s));
    assert forall k :: 0 <= k < |s| ==> rr[k] == s[k];
  }

  /** A sequence of at most one element is its own reverse. */
  lemma ReverseShort<T>(s: seq<T>)
    requires |s| <= 1
    ensures Reverse(s) == s
  {
  }

  /** The swap loop of `NamespaceFromRequest`: index `i` runs from
      `len/2 - 1` down to 0 and each step exchanges `comps[i]` with its
      mirror `comps[len - 1 - i]`. Slices are values here, so the swap
      rebuilds the sequence rather than writing through an array. */
  method SwapReverse(comps: seq<string>) returns (c: seq<string>)
    ensures |c| == |comps|
    ensures c == Reverse(comps)
  {
    c := comps;
    var n := |c|;
    var i := n / 2 - 1;
    while i >= 0
      invariant -1 <= i <= n / 2 - 1
      invariant |c| == n
      invariant forall k :: 0 <= k <= i ==> c[k] == comps[k]
      invariant forall k :: n - 1 - i <= k < n ==> c[k] == comps[k]
      invariant forall k :: i < k < n - 1 - i ==> c[k] == comps[n - 1 - k]
    {
      var opp := n - 1 - i;
      c := c[i := c[opp]][opp := c[i]];
      i := i - 1;
    }
  }
}
