/** The ring buffers of the bot: one of timestamped values, one of plain values. */
module TimeWindow {
  import opened Options

  datatype Entry<T> = Entry(time: int, value: T)

  // ----- what the buffers stand for -----

  /** The last n elements, or all when there are fewer. */
  function LastN<T>(s: seq<T>, n: nat): (r: seq<T>)
    ensures |r| == if |s| <= n then |s| else n
  {
    if |s| <= n then s else s[|s| - n..]
  }

  datatype Outcome = Added | Rewritten | Dropped

  /** What becomes of a new entry, by its time. */
  function Judge<T>(s: seq<Entry<T>>, time: int): Outcome {
    if s == [] || s[|s| - 1].time < time then Added
    else if s[|s| - 1].time == time then Rewritten
    else Dropped
  }

  /** A time series takes a newer entry at its end, replaces its last value on an equal time and
      ignores an older entry. */
  function Absorb<T>(s: seq<Entry<T>>, time: int, value: T): seq<Entry<T>> {
    match Judge(s, time)
    case Added => s + [Entry(time, value)]
    case Rewritten => s[..|s| - 1] + [Entry(time, value)]
    case Dropped => s
  }

  ghost predicate Increasing<T>(s: seq<Entry<T>>) {
    forall i, j | 0 <= i < j < |s| :: s[i].time < s[j].time
  }

  /** A newer entry comes last, an entry of the newest time takes the place of that, and an older one changes
      nothing. */
  lemma AbsorbedEntry<T>(s: seq<Entry<T>>, last: Entry<T>, e: Entry<T>)
    ensures Absorb([], e.time, e.value) == [e]
    ensures last.time < e.time ==> Absorb(s + [last], e.time, e.value) == s + [last] + [e]
    ensures last.time == e.time ==> Absorb(s + [last], e.time, e.value) == s + [e]
    ensures last.time > e.time ==> Absorb(s + [last], e.time, e.value) == s + [last]
  {
    assert (s + [last])[..|s|] == s;
  }

  /** The last n elements are the end of the sequence. */
  lemma LastNIsEnd<T>(front: seq<T>, end: seq<T>)
    ensures LastN(front + end, |end|) == end && (|front| > 0 ==> LastN(end, |front + end|) == end)
  {
  }

  /** Cutting a series to its last n entries commutes with absorbing. */
  lemma AbsorbLastN<T>(s: seq<Entry<T>>, time: int, value: T, n: nat)
    requires n >= 1
    ensures LastN(Absorb(LastN(s, n), time, value), n) == LastN(Absorb(s, time, value), n)
    ensures Judge(LastN(s, n), time) == Judge(s, time)
  {
  }

  lemma AbsorbIncreases<T>(s: seq<Entry<T>>, time: int, value: T)
    requires Increasing(s)
    ensures Increasing(Absorb(s, time, value))
  {
  }

  lemma LastIncreases<T>(s: seq<Entry<T>>, n: nat)
    requires Increasing(s) && s != [] && n >= 1
    ensures Increasing(LastN(s, n)) && LastN(s, n) != []
  {
  }

  /** The entries, newest first. */
  function NewestFirst<T>(s: seq<T>, length: nat): (r: seq<T>)
    requires length <= |s|
    ensures |r| == length
  {
    seq(length, i requires 0 <= i < length => s[|s| - 1 - i])
  }

  /** The value at a time some places back. */
  function Ago<T>(s: seq<T>, k: nat): T
    requires k < |s|
  {
    s[|s| - 1 - k]
  }

  /** The slot of an index in a ring of n. */
  function Slot(x: nat, n: nat): (slot: nat)
    requires 1 <= n
    ensures slot < n
  {
    x % n
  }

  /** Indices leave the ring by less than one turn. */
  lemma Wrap(x: nat, n: nat)
    requires 1 <= n && x < 2 * n
    ensures Slot(x, n) == if x < n then x else x - n
  {
    if x >= n {
      RemainderIs(x, n, 1, x - n);
    } else {
      RemainderIs(x, n, 0, x);
    }
  }

  /** A whole turn leads back to the same slot. */
  lemma Turn(x: nat, n: nat)
    requires 1 <= n
    ensures Slot(x + n, n) == Slot(x, n)
  {
    RemainderIs(x + n, n, x / n + 1, x % n);
  }

  /** How many places back from the newest the i-th entry of a range lies that starts at a place of a ring. */
  function Back(i: nat, beg: nat, n: nat): (places: nat)
    requires i < n && beg < n
    ensures places < n
  {
    if i >= beg then i - beg else n + i - beg
  }

  lemma RemainderIs(x: nat, n: nat, q: nat, r: nat)
    requires r < n && x == n * q + r
    ensures x % n == r
  {
    var d := q - x / n;
    assert n * d == x % n - r;
    AtLeastOnce(n, d);
  }

  lemma AtLeastOnce(n: int, d: int)
    requires n >= 0
    ensures d >= 1 ==> n * d >= n
    ensures d <= -1 ==> n * d <= -n
  {
  }

  /** What a ring holds, oldest to newest: the slots from the next one on and around, or those before it. */
  function Live<E>(w: seq<E>, full: bool, next: nat): (s: seq<E>)
    requires next < |w|
    ensures |s| == if full then |w| else next
  {
    if full then w[next..] + w[..next] else w[..next]
  }

  /** Writing the next slot of a ring appends to it, and pushes out the oldest element of a full one. */
  lemma RingAppend<E>(w: seq<E>, full: bool, i: nat, e: E)
    requires i < |w|
    ensures Live(w[i := e], full || i + 1 == |w|, Slot(i + 1, |w|)) == LastN(Live(w, full, i) + [e], |w|)
  {
    hide Slot;
    Wrap(i + 1, |w|);
    var v := w[i := e];
    if full {
      assert (Live(w, full, i) + [e])[1..] == (w[i..] + w[..i])[1..] + [e] == w[i + 1..] + w[..i] + [e];
      if i + 1 == |w| {
        assert v[0..] + v[..0] == w[..i] + [e];
      } else {
        assert v[i + 1..] + v[..i + 1] == w[i + 1..] + w[..i] + [e];
      }
    } else {
      assert v[..i + 1] == w[..i] + [e];
    }
  }

  /** Writing the slot written last replaces the newest element. */
  lemma RingRewrite<E>(w: seq<E>, full: bool, i: nat, e: E)
    requires i < |w| && (full || i > 0)
    ensures var v, s := w[Slot(i + |w| - 1, |w|) := e], Live(w, full, i);
            Live(v, full, i) == s[..|s| - 1] + [e]
  {
    hide Slot;
    Wrap(i + |w| - 1, |w|);
    var s := Live(w, full, i);
    assert i == 0 ==> s == w;
    assert i > 0 ==> s[..|s| - 1] == (if full then w[i..] else []) + w[..i - 1];
  }

  class TimeWindow<T> {
    var full: bool
    var validSize: nat
    var first: bool
    var index: nat
    const window: array<Entry<T>>

    ghost predicate Valid()
      reads this, window
    {
      && index < window.Length
      && validSize == (if full then window.Length else index)
      && (first <==> Contents() == [])
      && Increasing(Contents())
    }

    /** The live entries, oldest to newest. */
    ghost function Contents(): seq<Entry<T>>
      reads this, window
      requires index < window.Length
    {
      Live(window[..], full, index)
    }

    constructor (n: nat, zero: T)
      requires n >= 1
      ensures Valid() && Contents() == [] && window.Length == n && fresh(window)
      ensures forall k | 0 <= k < n :: window[k] == Entry(0, zero)
    {
      full, validSize, first, index := false, 0, true, 0;
      window := new Entry<T>[n](_ => Entry(0, zero));
    }

    /** Puts an entry into the next slot. */
    method Append(time: int, elem: T)
      requires Valid() && (Contents() == [] || Contents()[|Contents()| - 1].time < time)
      modifies this, window
      ensures Valid() && !first
      ensures Contents() == LastN(old(Contents()) + [Entry(time, elem)], window.Length)
    {
      hide Slot, Live, LastN;
      ghost var all := Contents() + [Entry(time, elem)];
      LastIncreases(all, window.Length);
      RingAppend(window[..], full, index, Entry(time, elem));
      window[index] := Entry(time, elem);
      assert window[..] == old(window[..])[old(index) := Entry(time, elem)];
      index := index + 1;
      if !full {
        validSize := validSize + 1;
        if index == window.Length {
          full := true;
        }
      }
      Wrap(index, window.Length);
      index := Slot(index, window.Length);
      first := false;
    }

    method Put(time: int, elem: T) returns (outcome: Outcome)
      requires Valid()
      modifies this, window
      ensures Valid()
      ensures outcome == Judge(old(Contents()), time)
      ensures Contents() == LastN(Absorb(old(Contents()), time, elem), window.Length)
    {
      hide Slot, Live;
      if first {
        Append(time, elem);
        return Added;
      }
      var n := window.Length;
      NewestSlot(0);
      var last := Slot(index + n - 1, n);
      if window[last].time == time {
        ghost var before := Contents();
        AbsorbIncreases(before, time, elem);
        RingRewrite(window[..], full, index, Entry(time, elem));
        window[last] := Entry(time, elem);
        assert window[..] == old(window[..])[last := Entry(time, elem)];
        return Rewritten;
      } else if window[last].time < time {
        Append(time, elem);
        return Added;
      }
      return Dropped;
    }

    /** The slot some places behind the one written last. */
    function Behind(places: nat): (slot: nat)
      reads this
      requires index < window.Length && places < window.Length
      ensures slot < window.Length
    {
      Slot(index + window.Length - 1 - places, window.Length)
    }

    /** Where the k-th newest entry lies. */
    lemma NewestSlot(k: nat)
      requires Valid() && k < |Contents()|
      ensures k < window.Length && window[Behind(k)] == Ago(Contents(), k)
    {
      hide Slot;
      Wrap(index + window.Length - 1 - k, window.Length);
    }

    lemma RangeSlot(i: nat, beg: nat)
      requires Valid() && i < window.Length && beg < window.Length
      ensures Slot(beg + index + window.Length - 1 - i, window.Length) == Behind(Back(i, beg, window.Length))
    {
      hide Slot;
      if i < beg {
        Turn(index + window.Length - 1 - Back(i, beg, window.Length), window.Length);
      }
    }

    method IsFull() returns (r: bool)
      requires Valid()
      ensures r <==> |Contents()| == window.Length
    {
      return full;
    }

    method GetSize() returns (r: nat)
      requires Valid()
      ensures r == |Contents()|
    {
      return validSize;
    }

    /** The entry some places back; none for a place outside the buffer. */
    method Get(at: nat) returns (r: Option<Entry<T>>)
      requires Valid()
      ensures r == if at >= window.Length then None else Some(window[Behind(at)])
      ensures at < |Contents()| ==> r == Some(Ago(Contents(), at))
    {
      hide Slot;
      if at >= window.Length {
        return None;
      }
      if at < |Contents()| {
        NewestSlot(at);
      }
      return Some(window[Behind(at)]);
    }

    /** Entries, newest first, from a place on; a place beyond the newest entry counts from the oldest slot on.
        The buffer refuses to give all its slots, and cuts a range that starts at a place to the slots from
        that place on. */
    method GetRange(beg: nat, length: nat) returns (r: Option<seq<Entry<T>>>)
      requires Valid()
      ensures r.None? <==> beg >= window.Length || length >= window.Length
      ensures r.Some? ==> |r.value| == if beg + length > window.Length then window.Length - beg else length
      ensures r.Some? ==> forall k | 0 <= k < |r.value| :: r.value[k] == window[Behind(Back(k, beg, window.Length))]
      ensures r.Some? ==> forall k | 0 <= k < |r.value| && Back(k, beg, window.Length) < |Contents()| ::
                r.value[k] == Ago(Contents(), Back(k, beg, window.Length))
      ensures beg == 0 && r.Some? && length <= |Contents()| ==> r.value == NewestFirst(Contents(), length)
    {
      hide Slot;
      var n := window.Length;
      if beg >= n || length >= n {
        return None;
      }
      var count := if beg + length > n then n - beg else length;
      var res: seq<Entry<T>> := [];
      for i := 0 to count
        invariant |res| == i
        invariant forall k | 0 <= k < i :: res[k] == window[Behind(Back(k, beg, n))]
      {
        RangeSlot(i, beg);
        res := res + [window[Slot(beg + index + n - 1 - i, n)]];
      }
      hide Behind;
      forall k | 0 <= k < count && Back(k, beg, n) < |Contents()|
        ensures res[k] == Ago(Contents(), Back(k, beg, n))
      {
        NewestSlot(Back(k, beg, n));
      }
      assert beg == 0 && length <= |Contents()| ==> res == NewestFirst(Contents(), length);
      return Some(res);
    }

    method Clear()
      requires Valid()
      modifies this
      ensures Valid() && Contents() == []
    {
      full, validSize, first, index := false, 0, true, 0;
    }
  }

  class Window<T(0)> {
    var full: bool
    var validSize: nat
    var index: nat
    const window: array<T>

    ghost predicate Valid()
      reads this
    {
      index < window.Length && validSize == (if full then window.Length else index)
    }

    /** The live values, oldest to newest. */
    ghost function Contents(): seq<T>
      reads this, window
      requires Valid()
    {
      Live(window[..], full, index)
    }

    constructor (n: nat)
      requires n >= 1
      ensures Valid() && Contents() == [] && window.Length == n && fresh(window)
    {
      full, validSize, index := false, 0, 0;
      window := new T[n];
    }

    method Put(elem: T)
      requires Valid()
      modifies this, window
      ensures Valid() && Contents() == LastN(old(Contents()) + [elem], window.Length)
    {
      hide Slot, Live, LastN;
      RingAppend(window[..], full, index, elem);
      window[index] := elem;
      assert window[..] == old(window[..])[old(index) := elem];
      index := index + 1;
      if !full {
        validSize := validSize + 1;
        if index == window.Length {
          full := true;
        }
      }
      Wrap(index, window.Length);
      index := Slot(index, window.Length);
    }

    method IsFull() returns (r: bool)
      requires Valid()
      ensures r <==> |Contents()| == window.Length
    {
      return full;
    }

    method GetSize() returns (r: nat)
      requires Valid()
      ensures r == |Contents()|
    {
      return validSize;
    }

    /** The first slots in physical order. All live slots together are a rotation of the contents. */
    method GetRange(beg: nat, length: nat) returns (r: Option<seq<T>>)
      requires Valid()
      ensures r == if beg >= window.Length || length > window.Length then None else Some(window[..length])
      ensures beg < window.Length && length == |Contents()| ==> r.Some? && IsRotation(r.value, Contents())
    {
      if beg >= window.Length || length > window.Length {
        return None;
      }
      var res: seq<T> := [];
      for i := 0 to length
        invariant res == window[..i]
      {
        res := res + [window[i]];
      }
      if length == |Contents()| {
        if full {
          assert Contents()[window.Length - index..] + Contents()[..window.Length - index] == res;
        } else {
          assert Contents()[0..] + Contents()[..0] == res;
        }
      }
      return Some(res);
    }

    method Clear()
      requires Valid()
      modifies this
      ensures Valid() && Contents() == []
    {
      full, validSize, index := false, 0, 0;
    }
  }

  ghost predicate IsRotation<T>(r: seq<T>, s: seq<T>) {
    exists k {:trigger s[k..]} :: 0 <= k <= |s| && r == s[k..] + s[..k]
  }
}
