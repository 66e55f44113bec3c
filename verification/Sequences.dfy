/** Facts about sequences, and copying into a buffer, that several components share. */
module Sequences {
  /** The concatenation of all parts, in order. */
  function Flatten<T>(parts: seq<seq<T>>): seq<T> {
    if parts == [] then [] else parts[0] + Flatten(parts[1..])
  }

  lemma FlattenSnoc<T>(parts: seq<seq<T>>, part: seq<T>)
    ensures Flatten(parts + [part]) == Flatten(parts) + part
  {
    if parts == [] {
    } else {
      assert (parts + [part])[1..] == parts[1..] + [part];
      FlattenSnoc(parts[1..], part);
    }
  }

  /** A slice of a slice. */
  lemma SliceOfSlice<T>(s: seq<T>, a: nat, b: nat, c: nat, d: nat)
    requires a <= b <= |s| && c <= d <= b - a
    ensures s[a..b][c..d] == s[a + c..a + d]
  {
    var u, v := s[a..b][c..d], s[a + c..a + d];
    forall k | 0 <= k < d - c ensures u[k] == v[k] {
      assert u[k] == s[a..b][c + k];
    }
  }

  /** The front and the rest of a slice. */
  lemma FrontAndRest<T>(s: seq<T>, a: nat, b: nat, m: nat)
    requires a <= a + m <= b <= |s|
    ensures s[a..b][..m] == s[a..a + m] && s[a..b][m..] == s[a + m..b]
    ensures s[a..b][..m] + s[a..b][m..] == s[a..b]
  {
  }

  lemma SameRest<T>(s: seq<T>, t: seq<T>, at: nat, length: nat)
    requires |s| == |t| && at + length <= |s| && s[at..] == t[at..]
    ensures s[at..at + length] == t[at..at + length]
  {
    assert s[at..at + length] == s[at..][..length];
    assert t[at..at + length] == t[at..][..length];
  }

  lemma BehindFront<T>(front: seq<T>, s: seq<T>, end: nat)
    requires |front| <= end <= |s|
    ensures (front + s[|front|..])[|front|..end] == s[|front|..end]
  {
    assert (front + s[|front|..])[|front|..] == s[|front|..];
    SameRest(front + s[|front|..], s, |front|, end - |front|);
  }

  /** Copies elements into a buffer from a position on. */
  method Write<T>(buffer: array<T>, at: nat, elements: seq<T>)
    requires at + |elements| <= buffer.Length
    modifies buffer
    ensures buffer[..] == old(buffer[..at]) + elements + old(buffer[at + |elements|..])
  {
    forall k | 0 <= k < |elements| {
      buffer[at + k] := elements[k];
    }
  }
}
