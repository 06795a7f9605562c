/**
 * Character buffers read as C strings: the terminator, the text a
 * `"%s"` write sends (everything before the first NUL), and the reversal
 * that the converters apply to their digit buffers.
 */
module CStrings {

  const NUL: char := 0 as char

  /** The C string a buffer holds: its characters before the first NUL. */
  function CString(s: seq<char>): seq<char>
  {
    if s == [] || s[0] == NUL then [] else [s[0]] + CString(s[1..])
  }

  /** A terminated buffer reads back as exactly the text before its terminator. */
  lemma {:induction false} CStringOfTerminated(s: seq<char>, rest: seq<char>)
    requires NUL !in s
    ensures CString(s + [NUL] + rest) == s
  {
    if s != [] {
      assert (s + [NUL] + rest)[1..] == s[1..] + [NUL] + rest;
      CStringOfTerminated(s[1..], rest);
    }
  }

  function Reverse<T>(s: seq<T>): seq<T>
  {
    if s == [] then [] else [s[|s| - 1]] + Reverse(s[..|s| - 1])
  }

  lemma {:induction false} ReverseAt<T>(s: seq<T>, k: nat)
    requires k < |s|
    ensures |Reverse(s)| == |s| && Reverse(s)[k] == s[|s| - 1 - k]
    decreases |s|
  {
    if k > 0 {
      ReverseAt(s[..|s| - 1], k - 1);
    } else if |s| > 1 {
      ReverseAt(s[..|s| - 1], 0);
    }
  }

  lemma ReverseLength<T>(s: seq<T>)
    ensures |Reverse(s)| == |s|
  {
    if s != [] {
      ReverseAt(s, 0);
    }
  }

  lemma ReverseSnoc<T>(s: seq<T>, x: T)
    ensures Reverse(s + [x]) == [x] + Reverse(s)
  {
    assert (s + [x])[..|s|] == s;
  }

  lemma {:induction false} ReverseCons<T>(x: T, s: seq<T>)
    ensures Reverse([x] + s) == Reverse(s) + [x]
    decreases |s|
  {
    if s != [] {
      var init := s[..|s| - 1];
      assert ([x] + s)[..|s|] == [x] + init;
      ReverseCons(x, init);
    }
  }

  /** Reversing twice restores the sequence. */
  lemma ReverseInvolutive<T>(s: seq<T>)
    ensures Reverse(Reverse(s)) == s
  {
    ReverseLength(s);
    ReverseLength(Reverse(s));
    forall k | 0 <= k < |s|
      ensures Reverse(Reverse(s))[k] == s[k]
    {
      ReverseAt(Reverse(s), k);
      ReverseAt(s, |s| - 1 - k);
    }
  }

  /** A buffer whose first n cells hold the old first n cells back to front, and that is otherwise unchanged. */
  lemma ReversedPrefix<T>(now: seq<T>, was: seq<T>, n: nat)
    requires |now| == |was| && n <= |was|
    requires forall k :: 0 <= k < n ==> now[k] == was[n - 1 - k]
    requires forall k :: n <= k < |was| ==> now[k] == was[k]
    ensures now == Reverse(was[..n]) + was[n..]
  {
    ReverseLength(was[..n]);
    forall k | 0 <= k < n
      ensures now[k] == Reverse(was[..n])[k]
    {
      ReverseAt(was[..n], k);
    }
  }
}
