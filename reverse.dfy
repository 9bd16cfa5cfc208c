// In-place reversal of a bidirectional range and of a NUL-terminated
// character string (reverse/reverse.hpp).
//
// A range [beg, end) over a random-access buffer is modelled as two indices
// into an array; the iterator arithmetic `++beg` / `--end` becomes index
// arithmetic on those two variables.
module Reverse {

  /** The elements of `s` in the opposite order. */
  function Reversed<T>(s: seq<T>): (r: seq<T>)
    ensures |r| == |s|
  {
    if s == [] then [] else Reversed(s[1..]) + [s[0]]
  }

  /** Element `k` of the reversal is element `|s| - 1 - k` of the original. */
  lemma {:induction false} ReversedAt<T>(s: seq<T>, k: nat)
    requires k < |s|
    ensures Reversed(s)[k] == s[|s| - 1 - k]
  {
    if k < |s| - 1 {
      ReversedAt(s[1..], k);
    }
  }

  /** Reversal is an involution: reversing twice gives the original back. */
  lemma ReversedTwice<T>(s: seq<T>)
    ensures Reversed(Reversed(s)) == s
  {
    var r := Reversed(s);
    forall k | 0 <= k < |s|
      ensures Reversed(r)[k] == s[k]
    {
      ReversedAt(r, k);
      ReversedAt(s, |s| - 1 - k);
    }
  }

  /** Reversal moves elements but neither adds nor drops any. */
  lemma {:induction false} ReversedPermutes<T>(s: seq<T>)
    ensures multiset(Reversed(s)) == multiset(s)
  {
    if s != [] {
      ReversedPermutes(s[1..]);
      assert s == [s[0]] + s[1..];
    }
  }

  /** Reversing `s + [x]` puts `x` first. */
  lemma ReversedSnoc<T>(s: seq<T>, x: T)
    ensures Reversed(s + [x]) == [x] + Reversed(s)
  {
    var t := [x] + Reversed(s);
    forall k | 0 <= k < |s| + 1
      ensures t[k] == (s + [x])[|s| - k]
    {
      if k > 0 {
        ReversedAt(s, k - 1);
      }
    }
    MirroredIsReversed(s + [x], t);
  }

  /** For an odd length the middle element stays where it is. */
  lemma MiddleStays<T>(s: seq<T>)
    requires |s| % 2 == 1
    ensures Reversed(s)[|s| / 2] == s[|s| / 2]
  {
    ReversedAt(s, |s| / 2);
  }

  /** `reverse(beg, end)`: swap the outermost pair and move both ends inwards
      until they meet (even length) or `beg == --end` (odd length). Elements
      outside the range are not touched. */
  method ReverseRange<T>(a: array<T>, beg: nat, end: nat)
    requires beg <= end <= a.Length
    modifies a
    ensures a[beg..end] == Reversed(old(a[beg..end]))
    ensures a[..beg] == old(a[..beg]) && a[end..] == old(a[end..])
  {
    ghost var was := a[..];
    var b, e := beg, end;
    while true
      invariant beg <= b <= e <= end && b - beg == end - e
      invariant forall k :: beg <= k < b || e <= k < end ==> a[k] == was[beg + end - 1 - k]
      invariant forall k :: 0 <= k < beg || b <= k < e || end <= k < a.Length ==> a[k] == was[k]
      decreases e - b
    {
      if b == e {
        break;
      }
      e := e - 1;
      if b == e {
        break;
      }
      a[b], a[e] := a[e], a[b];
      b := b + 1;
    }
    MirroredRange(was, a[..], beg, end);
  }

  /** `now` is `was` with the slice [beg, end) mirrored and the rest kept. */
  lemma MirroredRange<T>(was: seq<T>, now: seq<T>, beg: nat, end: nat)
    requires beg <= end <= |was| == |now|
    requires forall k :: beg <= k < end ==> now[k] == was[beg + end - 1 - k]
    requires forall k :: 0 <= k < beg || end <= k < |was| ==> now[k] == was[k]
    ensures now[beg..end] == Reversed(was[beg..end])
    ensures now[..beg] == was[..beg] && now[end..] == was[end..]
  {
    MirroredIsReversed(was[beg..end], now[beg..end]);
  }

  /** A sequence that holds `s` mirrored position by position is `Reversed(s)`. */
  lemma MirroredIsReversed<T>(s: seq<T>, t: seq<T>)
    requires |t| == |s|
    requires forall k :: 0 <= k < |s| ==> t[k] == s[|s| - 1 - k]
    ensures t == Reversed(s)
  {
    forall k | 0 <= k < |s|
      ensures t[k] == Reversed(s)[k]
    {
      ReversedAt(s, k);
    }
  }

  /** `std::strlen`: the index of the first NUL character. */
  method StrLen(str: array<char>) returns (n: nat)
    requires exists i :: 0 <= i < str.Length && str[i] == '\0'
    ensures n < str.Length && str[n] == '\0'
    ensures forall i :: 0 <= i < n ==> str[i] != '\0'
  {
    n := 0;
    while str[n] != '\0'
      invariant n < str.Length
      invariant forall i :: 0 <= i < n ==> str[i] != '\0'
      invariant exists i :: n <= i < str.Length && str[i] == '\0'
      decreases str.Length - n
    {
      n := n + 1;
    }
  }

  /** `reverse(char *str)`: reverses exactly the characters before the NUL
      terminator; the terminator and everything after it stay put. */
  method ReverseCString(str: array<char>) returns (ghost len: nat)
    requires exists i :: 0 <= i < str.Length && str[i] == '\0'
    modifies str
    ensures len < str.Length && old(str[len]) == '\0'
    ensures forall i :: 0 <= i < len ==> old(str[i]) != '\0'
    ensures str[..len] == Reversed(old(str[..len]))
    ensures str[len..] == old(str[len..])
  {
    var n := StrLen(str);
    ReverseRange(str, 0, n);
    len := n;
  }
}
