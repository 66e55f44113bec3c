/** The bot's indicators: three chained windows kept up to date tick by tick, and what they equal. */
module RocStrategy {
  import opened TimeWindow

  type Tick = Entry<real>

  const COUNT: nat := 12
  const AVG_NUM: nat := 6
  const HISTORY: nat := 720

  // ----- the indicators of a whole price series -----

  /** The price series that a stream of ticks leaves: newer times are appended, an equal time
      overwrites, older times are ignored. */
  function AbsorbAll(s: seq<Tick>, ticks: seq<Tick>): seq<Tick> {
    if ticks == [] then s
    else
      var t := ticks[|ticks| - 1];
      Absorb(AbsorbAll(s, ticks[..|ticks| - 1]), t.time, t.value)
  }

  /** How the exchange batches its ticks makes no difference. */
  lemma {:induction false} AbsorbAllAppend(s: seq<Tick>, a: seq<Tick>, b: seq<Tick>)
    ensures AbsorbAll(s, a + b) == AbsorbAll(AbsorbAll(s, a), b)
    decreases |b|
  {
    hide Absorb;
    if b == [] {
      assert a + b == a;
    } else {
      var all, front := a + b, b[..|b| - 1];
      assert all[..|all| - 1] == a + front && all[|all| - 1] == b[|b| - 1];
      AbsorbAllAppend(s, a, front);
    }
  }

  /** A part of a message: a channel and its ticks. */
  datatype Packet = Packet(channel: string, ticks: seq<Tick>)

  /** The ticks of one channel. */
  function Concerning(channel: string, node: seq<Packet>): seq<Tick> {
    if node == [] then []
    else
      var last := node[|node| - 1];
      Concerning(channel, node[..|node| - 1]) + if last.channel == channel then last.ticks else []
  }

  /** The time in the slot written last. */
  function Newest(s: seq<Tick>): int {
    if s == [] then 0 else s[|s| - 1].time
  }

  /** The time is not that of the newest mean, or not 0 if there is none. */
  predicate NewTime(s: seq<Tick>, time: int) {
    time != if |s| < 17 then 0 else Newest(s)
  }

  /** The answer to a message: the last of its ticks decides. */
  predicate SaysUpdated(s: seq<Tick>, ticks: seq<Tick>) {
    && ticks != [] && |AbsorbAll(s, ticks)| >= 17
    && NewTime(AbsorbAll(s, ticks[..|ticks| - 1]), ticks[|ticks| - 1].time)
  }

  predicate NonZero(s: seq<Tick>) {
    forall i | 0 <= i < |s| :: s[i].value != 0.0
  }

  /** The rate of change in percent against eleven places before. */
  function Roc(s: seq<Tick>, j: nat): real
    requires 11 <= j < |s| && NonZero(s)
  {
    s[j].value * 100.0 / s[j - 11].value - 100.0
  }

  /** The rate of change is by how many percent the price differs from the one eleven places before. */
  lemma RocIsPercent(s: seq<Tick>, j: nat)
    requires 11 <= j < |s| && NonZero(s)
    ensures s[j].value == s[j - 11].value * (1.0 + Roc(s, j) / 100.0)
    ensures s[j].value > 0.0 && s[j - 11].value > 0.0 ==> (Roc(s, j) > 0.0 <==> s[j].value > s[j - 11].value)
    ensures s[j].value > 0.0 && s[j - 11].value > 0.0 ==> (Roc(s, j) < 0.0 <==> s[j].value < s[j - 11].value)
  {
    PercentOf(s[j].value, s[j - 11].value);
  }

  lemma PercentOf(today: real, before: real)
    requires before != 0.0
    ensures var r := today * 100.0 / before - 100.0;
            && today == before * (1.0 + r / 100.0)
            && (today > 0.0 && before > 0.0 ==> (r > 0.0 <==> today > before) && (r < 0.0 <==> today < before))
  {
    var q := today * 100.0 / before;
    assert q * before == today * 100.0;
    if today > 0.0 && before > 0.0 {
      assert (q - 100.0) * before == (today - before) * 100.0;
      SameSign(q - 100.0, before);
    }
  }

  lemma SameSign(r: real, p: real)
    requires p > 0.0
    ensures (r * p > 0.0 <==> r > 0.0) && (r * p < 0.0 <==> r < 0.0)
  {
  }

  function RocSeries(s: seq<Tick>): (r: seq<Tick>)
    requires NonZero(s)
    ensures |r| == if |s| < 11 then 0 else |s| - 11
  {
    seq(if |s| < 11 then 0 else |s| - 11,
        i requires 0 <= i && i + 11 < |s| => Entry(s[i + 11].time, Roc(s, i + 11)))
  }

  /** The mean of six consecutive values. */
  function MeanOfSix(r: seq<Tick>, i: nat): real
    requires i + 6 <= |r|
  {
    (r[i].value + r[i + 1].value + r[i + 2].value + r[i + 3].value + r[i + 4].value + r[i + 5].value) / 6.0
  }

  function MarocSeries(r: seq<Tick>): (m: seq<Tick>)
    ensures |m| == if |r| < 5 then 0 else |r| - 5
  {
    seq(if |r| < 5 then 0 else |r| - 5,
        i requires 0 <= i && i + 5 < |r| => Entry(r[i + 5].time, MeanOfSix(r, i)))
  }

  /** How one tick changes the rates of change: just as a window would take the newest one. */
  lemma RocAbsorbs(s: seq<Tick>, time: int, price: real)
    requires NonZero(s) && price != 0.0 && Increasing(s)
    ensures var s' := Absorb(s, time, price);
            && NonZero(s')
            && (|s'| >= 12 ==> RocSeries(s') == Absorb(RocSeries(s), time, Roc(s', |s'| - 1)))
            && (|s'| < 12 ==> RocSeries(s') == RocSeries(s) == [])
  {
    var s' := Absorb(s, time, price);
    if |s'| >= 12 {
      var r, r' := RocSeries(s), RocSeries(s');
      assert |s| >= 12 ==> r[|r| - 1].time == s[|s| - 1].time;
      assert Judge(s, time) == Judge(r, time) || (|s| == 11 && Judge(s, time) == Added);
      assert r' == Absorb(r, time, Roc(s', |s'| - 1));
    }
  }

  lemma MarocAbsorbs(r: seq<Tick>, time: int, roc: real)
    requires Increasing(r)
    ensures var r' := Absorb(r, time, roc);
            && (|r'| >= 6 ==> MarocSeries(r') == Absorb(MarocSeries(r), time, MeanOfSix(r', |r'| - 6)))
            && (|r'| < 6 ==> MarocSeries(r') == MarocSeries(r) == [])
  {
    var r' := Absorb(r, time, roc);
    if |r'| >= 6 {
      var m, m' := MarocSeries(r), MarocSeries(r');
      assert |r| >= 6 ==> m[|m| - 1].time == r[|r| - 1].time;
      assert Judge(r, time) == Judge(m, time) || (|r| == 5 && Judge(r, time) == Added);
      assert m' == Absorb(m, time, MeanOfSix(r', |r'| - 6));
    }
  }

  lemma SeriesIncreases(s: seq<Tick>)
    requires NonZero(s) && Increasing(s)
    ensures Increasing(RocSeries(s))
  {
    var r := RocSeries(s);
    forall i, j | 0 <= i < j < |r| ensures r[i].time < r[j].time {
      assert r[i].time == s[i + 11].time && r[j].time == s[j + 11].time;
    }
  }

  // ----- the indicator formulas -----

  function ROC(today: real, nDaysAgo: real): real
    requires nDaysAgo != 0.0
  {
    today * 100.0 / nDaysAgo - 100.0
  }

  function SumFrom(v: seq<Tick>, n: nat): real
    requires n <= |v|
  {
    if n == 0 then 0.0 else SumFrom(v, n - 1) + v[n - 1].value
  }

  method MAROC(v: seq<Tick>) returns (mean: real)
    requires |v| > 0
    ensures mean == SumFrom(v, |v|) / |v| as real
  {
    var sum := 0.0;
    for i := 0 to |v|
      invariant sum == SumFrom(v, i)
    {
      sum := sum + v[i].value;
    }
    mean := sum / |v| as real;
  }

  /** Summing the newest six backwards gives their mean, also in a window that keeps only the end. */
  lemma NewestSixMean(r: seq<Tick>, n: nat)
    requires |r| >= 6 && n >= 6
    ensures var v := NewestFirst(LastN(r, n), 6); SumFrom(v, 6) / 6.0 == MeanOfSix(r, |r| - 6)
  {
    var v := NewestFirst(LastN(r, n), 6);
    assert SumFrom(v, 1) == v[0].value;
    assert SumFrom(v, 2) == SumFrom(v, 1) + v[1].value;
    assert SumFrom(v, 3) == SumFrom(v, 2) + v[2].value;
    assert SumFrom(v, 4) == SumFrom(v, 3) + v[3].value;
    assert SumFrom(v, 5) == SumFrom(v, 4) + v[4].value;
    assert SumFrom(v, 6) == SumFrom(v, 5) + v[5].value;
  }

  /** The rate of change some minutes before the newest one. */
  function RocAgo(s: seq<Tick>, k: nat): real
    requires NonZero(s) && k + 12 <= |s|
  {
    Roc(s, |s| - 1 - k)
  }

  /** The mean of the six rates of change that end some minutes before the newest one. */
  function MarocAgo(s: seq<Tick>, k: nat): real
    requires NonZero(s) && k + 17 <= |s|
  {
    (RocAgo(s, k) + RocAgo(s, k + 1) + RocAgo(s, k + 2) + RocAgo(s, k + 3) + RocAgo(s, k + 4) + RocAgo(s, k + 5)) / 6.0
  }

  /** The mean is six times less than the sum of the six rates. */
  lemma MarocIsMean(s: seq<Tick>, k: nat)
    requires NonZero(s) && k + 17 <= |s|
    ensures RocAgo(s, k) + RocAgo(s, k + 1) + RocAgo(s, k + 2) + RocAgo(s, k + 3) + RocAgo(s, k + 4) + RocAgo(s, k + 5)
            == 6.0 * MarocAgo(s, k)
  {
    hide RocAgo;
  }

  /** The indicators crossed upwards in the last complete minute, stayed crossed, or crossed downwards. */
  predicate CrossedUp(s: seq<Tick>)
    requires NonZero(s)
  {
    && |s| >= 19 && RocAgo(s, 1) > MarocAgo(s, 1) && RocAgo(s, 2) < MarocAgo(s, 2)
    && MarocAgo(s, 1) > MarocAgo(s, 2)
  }

  predicate StayedUp(s: seq<Tick>)
    requires NonZero(s)
  {
    && |s| >= 19 && RocAgo(s, 1) > MarocAgo(s, 1) && RocAgo(s, 2) > MarocAgo(s, 2)
    && MarocAgo(s, 1) > MarocAgo(s, 2)
  }

  predicate CrossedDown(s: seq<Tick>)
    requires NonZero(s)
  {
    |s| >= 19 && RocAgo(s, 1) < MarocAgo(s, 1) && RocAgo(s, 2) > MarocAgo(s, 2)
  }

  /** At most one of the tests holds. */
  lemma OneTestHolds(s: seq<Tick>)
    requires NonZero(s)
    ensures !(CrossedUp(s) && StayedUp(s)) && !(CrossedUp(s) && CrossedDown(s)) && !(StayedUp(s) && CrossedDown(s))
  {
    hide RocAgo, MarocAgo;
  }

  /** Sixteen minutes at 100, then a fall to 99 and a rise to 110. */
  lemma RiseCrossesUp(s: seq<Tick>)
    requires |s| == 19 && (forall j | 0 <= j < 16 :: s[j].value == 100.0)
    requires s[16].value == 99.0 && s[17].value == 110.0 && s[18].value == 110.0
    ensures NonZero(s) && RocAgo(s, 1) == 10.0 && MarocAgo(s, 1) == 1.5
    ensures RocAgo(s, 2) == -1.0 && MarocAgo(s, 2) == -1.0 / 6.0
    ensures CrossedUp(s)
  {
  }

  lemma FallCrossesDown(s: seq<Tick>)
    requires |s| == 19 && (forall j | 0 <= j < 16 :: s[j].value == 100.0)
    requires s[16].value == 101.0 && s[17].value == 90.0 && s[18].value == 90.0
    ensures NonZero(s) && CrossedDown(s)
  {
  }

  lemma RiseStaysUp(s: seq<Tick>)
    requires |s| == 19 && (forall j | 0 <= j < 16 :: s[j].value == 100.0)
    requires s[16].value == 110.0 && s[17].value == 130.0 && s[18].value == 130.0
    ensures NonZero(s) && StayedUp(s)
  {
  }

  /** The series in another currency. */
  function Scaled(s: seq<Tick>, c: real): seq<Tick> {
    seq(|s|, i requires 0 <= i < |s| => Entry(s[i].time, s[i].value * c))
  }

  lemma ScaledRoc(s: seq<Tick>, c: real, k: nat)
    requires NonZero(s) && c != 0.0 && k + 12 <= |s|
    ensures NonZero(Scaled(s, c)) && RocAgo(Scaled(s, c), k) == RocAgo(s, k)
  {
    var j := |s| - 1 - k;
    SameQuotient(s[j].value, s[j - 11].value, c);
  }

  lemma SameQuotient(x: real, y: real, c: real)
    requires y != 0.0 && c != 0.0
    ensures y * c != 0.0 && x * c * 100.0 / (y * c) == x * 100.0 / y
  {
    var q := x * 100.0 / y;
    assert q * y == x * 100.0;
    assert q * (y * c) == x * c * 100.0;
  }

  /** What the tests say does not depend on the currency. */
  lemma ScaledTests(s: seq<Tick>, c: real)
    requires NonZero(s) && c != 0.0
    ensures var t := Scaled(s, c);
            NonZero(t) && CrossedUp(t) == CrossedUp(s) && StayedUp(t) == StayedUp(s) && CrossedDown(t) == CrossedDown(s)
  {
    hide RocAgo;
    forall k | 0 <= k && k + 12 <= |s| ensures NonZero(Scaled(s, c)) && RocAgo(Scaled(s, c), k) == RocAgo(s, k) {
      ScaledRoc(s, c, k);
    }
    forall i | 0 <= i < |s| ensures Scaled(s, c)[i].value != 0.0 {
      SameQuotient(1.0, s[i].value, c);
    }
    if |s| >= 19 {
      assert MarocAgo(Scaled(s, c), 1) == MarocAgo(s, 1) && MarocAgo(Scaled(s, c), 2) == MarocAgo(s, 2);
    }
  }

  lemma RocSeriesAgo(s: seq<Tick>, k: nat)
    requires NonZero(s) && k + 12 <= |s|
    ensures Ago(RocSeries(s), k) == Entry(Ago(s, k).time, RocAgo(s, k))
  {
  }

  lemma MarocSeriesAgo(s: seq<Tick>, k: nat)
    requires NonZero(s) && k + 17 <= |s|
    ensures Ago(MarocSeries(RocSeries(s)), k) == Entry(Ago(s, k).time, MarocAgo(s, k))
  {
    hide Roc, RocAgo;
    var r := RocSeries(s);
    var i := |r| - 6 - k;
    RocSeriesAgo(s, k);
    RocSeriesAgo(s, k + 1);
    RocSeriesAgo(s, k + 2);
    RocSeriesAgo(s, k + 3);
    RocSeriesAgo(s, k + 4);
    RocSeriesAgo(s, k + 5);
    assert Ago(MarocSeries(r), k) == Entry(r[i + 5].time, MeanOfSix(r, i));
  }

  lemma AgoLastN<T>(s: seq<T>, n: nat, k: nat)
    requires k < n && k < |s|
    ensures Ago(LastN(s, n), k) == Ago(s, k)
  {
  }

  /** The ends of the batch series are aligned: entries the same number of places back belong to the
      same minute. */
  lemma SeriesAligned(s: seq<Tick>, k: nat)
    requires NonZero(s) && k + 17 <= |s| && k < HISTORY
    ensures Ago(LastN(RocSeries(s), HISTORY), k) == Entry(Ago(s, k).time, RocAgo(s, k))
    ensures Ago(LastN(MarocSeries(RocSeries(s)), HISTORY), k) == Entry(Ago(s, k).time, MarocAgo(s, k))
    ensures k < COUNT ==> Ago(LastN(s, COUNT), k) == Ago(s, k)
  {
    RocSeriesAgo(s, k);
    MarocSeriesAgo(s, k);
    AgoLastN(RocSeries(s), HISTORY, k);
    AgoLastN(MarocSeries(RocSeries(s)), HISTORY, k);
    if k < COUNT {
      AgoLastN(s, COUNT, k);
    }
  }

  lemma NewestOfLast(s: seq<Tick>, n: nat)
    requires n >= 1
    ensures Newest(LastN(s, n)) == Newest(s)
  {
  }

  lemma NewestMaroc(s: seq<Tick>, time: int)
    requires NonZero(s)
    ensures time != Newest(MarocSeries(RocSeries(s))) <==> NewTime(s, time)
  {
    if |s| >= 17 {
      MarocSeriesAgo(s, 0);
    }
  }

  lemma OneMore(s: seq<Tick>, ticks: seq<Tick>, t: Tick)
    ensures AbsorbAll(s, ticks + [t]) == Absorb(AbsorbAll(s, ticks), t.time, t.value)
    ensures SaysUpdated(s, ticks + [t]) <==>
            |AbsorbAll(s, ticks + [t])| >= 17 && NewTime(AbsorbAll(s, ticks), t.time)
    ensures |AbsorbAll(s, ticks + [t])| < 17 ==> !SaysUpdated(s, ticks)
  {
    hide NewTime;
    assert (ticks + [t])[..|ticks|] == ticks;
  }

  lemma {:induction false} SeriesGrows(s: seq<Tick>, ticks: seq<Tick>)
    ensures |s| <= |AbsorbAll(s, ticks)|
  {
    if ticks != [] {
      SeriesGrows(s, ticks[..|ticks| - 1]);
    }
  }

  /** How many means a series of so many minutes has. */
  function Means(s: seq<Tick>): nat {
    if |s| < 17 then 0 else |s| - 16
  }

  lemma MeansOfSeries(s: seq<Tick>)
    requires NonZero(s)
    ensures Means(s) == |MarocSeries(RocSeries(s))|
  {
  }

  /** The answer to a message says whether the newest mean is a new one, if and only if the last tick begins a
      minute (and not the first one with a mean at the time 0), or overwrites and no mean came before it, or
      is too old and one did or there are none. */
  lemma AnswerIsTrue(s: seq<Tick>, ticks: seq<Tick>)
    requires ticks != []
    ensures var others, time := AbsorbAll(s, ticks[..|ticks| - 1]), ticks[|ticks| - 1].time;
            (SaysUpdated(s, ticks) <==> Means(AbsorbAll(s, ticks)) > Means(s)) <==>
            match Judge(others, time)
            case Added => |others| != 16 || time != 0
            case Rewritten => Means(others) == Means(s)
            case Dropped => Means(others) > Means(s) || |others| < 17
  {
    SeriesGrows(s, ticks[..|ticks| - 1]);
  }

  lemma OneTick(s: seq<Tick>, t: Tick)
    ensures AbsorbAll(s, [t]) == Absorb(s, t.time, t.value)
    ensures SaysUpdated(s, [t]) <==> |Absorb(s, t.time, t.value)| >= 17 && NewTime(s, t.time)
  {
    assert [t] == [] + [t];
    OneMore(s, [], t);
  }

  /** A tick that is too old is reported as a new minute. */
  lemma StaleTickReported(s: seq<Tick>, t: Tick)
    requires |s| >= 17 && t.time < s[|s| - 1].time
    ensures AbsorbAll(s, [t]) == s && SaysUpdated(s, [t])
  {
    OneTick(s, t);
  }

  /** A new minute is not reported when two of its prices come in one message. */
  lemma NewMinuteMissed(s: seq<Tick>, t: Tick, price: real)
    requires |s| >= 17 && t.time > s[|s| - 1].time
    ensures var ticks := [t] + [Entry(t.time, price)];
            AbsorbAll(s, ticks) == s + [Entry(t.time, price)] && !SaysUpdated(s, ticks)
  {
    OneTick(s, t);
    OneMore(s, [t], Entry(t.time, price));
    assert AbsorbAll(s, [t]) == s + [t];
  }

  /** The ticks of a channel are those of its packets, in order. */
  lemma {:induction false} ConcerningAppend(channel: string, node: seq<Packet>, more: seq<Packet>)
    ensures Concerning(channel, node + more) == Concerning(channel, node) + Concerning(channel, more)
    decreases |more|
  {
    if more == [] {
      assert node + more == node;
    } else {
      var all, front := node + more, more[..|more| - 1];
      assert all[..|all| - 1] == node + front;
      ConcerningAppend(channel, node, front);
    }
  }

  lemma ConcerningOne(p: Packet, channel: string)
    ensures Concerning(channel, [p]) == if p.channel == channel then p.ticks else []
  {
    assert [p][..0] == [];
  }

  lemma NoTicks(s: seq<Tick>, channel: string)
    ensures Concerning(channel, []) == [] && AbsorbAll(s, []) == s && !SaysUpdated(s, [])
  {
  }

  lemma ConcerningNext(channel: string, node: seq<Packet>, k: nat)
    requires k < |node|
    ensures var before := Concerning(channel, node[..k]);
            Concerning(channel, node[..k + 1])
            == if node[k].channel == channel then before + node[k].ticks else before
  {
    assert node[..k + 1][..k] == node[..k];
  }

  /** The newest and the twelfth newest price give the newest rate of change. */
  lemma NewestRoc(s: seq<Tick>)
    requires NonZero(s) && |s| >= 12
    ensures var w := LastN(s, 12); Ago(w, 11).value != 0.0 && ROC(Ago(w, 0).value, Ago(w, 11).value) == Roc(s, |s| - 1)
  {
  }

  lemma TickOnSeries(s: seq<Tick>, time: int, price: real)
    requires NonZero(s) && Increasing(s) && price != 0.0
    ensures var s' := Absorb(s, time, price);
            && NonZero(s') && Increasing(s')
            && LastN(Absorb(LastN(s, COUNT), time, price), COUNT) == LastN(s', COUNT)
            && (|s'| < 12 ==> RocSeries(s') == RocSeries(s) && MarocSeries(RocSeries(s')) == MarocSeries(RocSeries(s)))
  {
    RocAbsorbs(s, time, price);
    AbsorbIncreases(s, time, price);
    AbsorbLastN(s, time, price, COUNT);
  }

  /** What one tick does to the rates of change, seen through a window that keeps only their end. */
  lemma RocThroughWindow(s: seq<Tick>, time: int, price: real)
    requires NonZero(s) && Increasing(s) && price != 0.0 && |Absorb(s, time, price)| >= 12
    ensures var s' := Absorb(s, time, price);
            && NonZero(s')
            && var w := LastN(s', COUNT);
            && Ago(w, 11).value != 0.0
            && var roc := ROC(Ago(w, 0).value, Ago(w, 11).value);
            && roc == Roc(s', |s'| - 1)
            && LastN(Absorb(LastN(RocSeries(s), HISTORY), time, roc), HISTORY) == LastN(RocSeries(s'), HISTORY)
  {
    var s' := Absorb(s, time, price);
    RocAbsorbs(s, time, price);
    hide Absorb, LastN, RocSeries, Roc, ROC;
    NewestRoc(s');
    AbsorbLastN(RocSeries(s), time, Roc(s', |s'| - 1), HISTORY);
  }

  /** What a new rate of change does to the means: with the mean of the newest six, as the window
      yields it, or with nothing when there are fewer. */
  lemma MarocThroughWindow(r: seq<Tick>, time: int, roc: real, mean: real)
    requires Increasing(r)
    requires var w := LastN(Absorb(r, time, roc), HISTORY);
             |w| >= 6 ==> mean == SumFrom(NewestFirst(w, 6), 6) / 6.0
    ensures var r' := Absorb(r, time, roc);
            if |LastN(r', HISTORY)| < 6 then MarocSeries(r') == MarocSeries(r)
            else LastN(Absorb(LastN(MarocSeries(r), HISTORY), time, mean), HISTORY) == LastN(MarocSeries(r'), HISTORY)
  {
    var r' := Absorb(r, time, roc);
    MarocAbsorbs(r, time, roc);
    if |r'| >= 6 {
      NewestSixMean(r', HISTORY);
      assert mean == MeanOfSix(r', |r'| - 6);
      hide Absorb, MarocSeries, LastN;
      AbsorbLastN(MarocSeries(r), time, mean, HISTORY);
    }
  }

  lemma EndIsPercent(s: seq<Tick>, k: nat)
    requires NonZero(s) && k < |LastN(RocSeries(s), HISTORY)|
    ensures k + 12 <= |s| && Ago(s, k + 11).value != 0.0
    ensures Ago(s, k).value == Ago(s, k + 11).value * (1.0 + Ago(LastN(RocSeries(s), HISTORY), k).value / 100.0)
  {
    AgoLastN(RocSeries(s), HISTORY, k);
    RocSeriesAgo(s, k);
    RocIsPercent(s, |s| - 1 - k);
    hide Roc, LastN, RocSeries;
  }

  // ----- the strategy's state -----

  class Strategy {
    const window: TimeWindow<real>
    const rocWin: TimeWindow<real>
    const marocWin: TimeWindow<real>
    /** The price series of all ticks so far. */
    ghost var series: seq<Tick>

    /** Three separate windows of the right sizes. */
    ghost predicate Shape()
    {
      && window.window.Length == COUNT && rocWin.window.Length == HISTORY && marocWin.window.Length == HISTORY
      && window != rocWin && window != marocWin && rocWin != marocWin
      && window.window != rocWin.window && window.window != marocWin.window && rocWin.window != marocWin.window
    }

    ghost function Repr(): set<object> {
      {this, window, window.window, rocWin, rocWin.window, marocWin, marocWin.window}
    }

    /** The windows are the ends of the batch computation over the series. */
    ghost predicate Valid()
      reads Repr()
    {
      && Shape() && window.Valid() && rocWin.Valid() && marocWin.Valid()
      && NonZero(series) && Increasing(series)
      && window.Contents() == LastN(series, COUNT)
      && rocWin.Contents() == LastN(RocSeries(series), HISTORY)
      && marocWin.Contents() == LastN(MarocSeries(RocSeries(series)), HISTORY) && Blank()
    }

    /** Slots that were never written hold the time 0. */
    ghost predicate Blank()
      reads marocWin, marocWin.window
      requires marocWin.Valid()
    {
      marocWin.Contents() == [] ==> forall k | 0 <= k < marocWin.window.Length :: marocWin.window[k].time == 0
    }

    constructor ()
      ensures Valid() && series == [] && fresh(Repr())
    {
      window := new TimeWindow(COUNT, 0.0);
      rocWin := new TimeWindow(HISTORY, 0.0);
      marocWin := new TimeWindow(HISTORY, 0.0);
      series := [];
    }

    /** One tick: the price goes into the window, and the indicators follow once there are enough. */
    method OnTick(time: int, price: real, before: bool) returns (updated: bool)
      requires Valid() && price != 0.0
      modifies Repr()
      ensures Valid() && series == Absorb(old(series), time, price)
      ensures updated == if |series| < 17 then before else NewTime(old(series), time)
    {
      ghost var s := series;
      hide RocSeries, MarocSeries, Absorb, LastN, Judge, Increasing, NewTime;
      TickOnSeries(s, time, price);
      series := Absorb(s, time, price);
      var _ := window.Put(time, price);
      var full := window.IsFull();
      updated := before;
      if full {
        updated := UpdateIndicators(s, time, price, before);
      }
    }

    /** The newest rate of change goes into the second window. */
    method UpdateIndicators(ghost s: seq<Tick>, time: int, ghost price: real, before: bool) returns (updated: bool)
      requires Shape() && window.Valid() && rocWin.Valid() && marocWin.Valid() && Blank()
      requires NonZero(s) && Increasing(s) && price != 0.0
      requires series == Absorb(s, time, price) && |series| >= COUNT
      requires NonZero(series) && window.Contents() == LastN(series, COUNT)
      requires rocWin.Contents() == LastN(RocSeries(s), HISTORY)
      requires marocWin.Contents() == LastN(MarocSeries(RocSeries(s)), HISTORY)
      modifies rocWin, rocWin.window, marocWin, marocWin.window
      ensures rocWin.Valid() && rocWin.Contents() == LastN(RocSeries(series), HISTORY)
      ensures marocWin.Valid() && marocWin.Contents() == LastN(MarocSeries(RocSeries(series)), HISTORY) && Blank()
      ensures updated == if |series| < 17 then before else NewTime(s, time)
    {
      hide RocSeries, MarocSeries, Roc, ROC, Absorb, LastN, Judge, Ago, Increasing, Newest, NewTime;
      RocThroughWindow(s, time, price);
      RocAbsorbs(s, time, price);
      SeriesIncreases(s);
      NewestMaroc(s, time);
      var today := window.Get(0);
      var longAgo := window.Get(COUNT - 1);
      var _ := rocWin.Put(time, ROC(today.value.value, longAgo.value.value));
      updated := UpdateMaroc(RocSeries(s), RocSeries(series), time, Roc(series, |series| - 1), before);
    }

    /** Once six rates of change are there, their mean goes into the third window. */
    method UpdateMaroc(ghost r: seq<Tick>, ghost r': seq<Tick>, time: int, ghost roc: real, before: bool)
      returns (updated: bool)
      requires Shape() && rocWin.Valid() && marocWin.Valid() && Increasing(r) && Blank()
      requires r' == Absorb(r, time, roc) && rocWin.Contents() == LastN(r', HISTORY)
      requires marocWin.Contents() == LastN(MarocSeries(r), HISTORY)
      modifies marocWin, marocWin.window
      ensures marocWin.Valid() && marocWin.Contents() == LastN(MarocSeries(r'), HISTORY) && Blank()
      ensures updated == if |r'| < AVG_NUM then before else time != Newest(MarocSeries(r))
    {
      hide MarocSeries, Absorb, LastN, Judge, NewestFirst, SumFrom, Increasing;
      updated := before;
      var size := rocWin.GetSize();
      if size >= AVG_NUM {
        var newest := rocWin.GetRange(0, AVG_NUM);
        var mean := MAROC(newest.value);
        var last := marocWin.Get(0);
        NewestOfLast(MarocSeries(r), HISTORY);
        updated := time != last.value.time;
        MarocThroughWindow(r, time, roc, mean);
        var _ := marocWin.Put(time, mean);
      } else {
        MarocThroughWindow(r, time, roc, 0.0);
      }
    }

    /** A message of the exchange holds packets of ticks, of which those of one channel are taken. The answer
        is whether the newest indicator is a new one, which the trading tests wait for. */
    method CalcRocAndMaroc(channel: string, node: seq<Packet>) returns (updated: bool)
      requires Valid() && forall k | 0 <= k < |node| && node[k].channel == channel :: NonZero(node[k].ticks)
      modifies Repr()
      ensures Valid() && series == AbsorbAll(old(series), Concerning(channel, node))
      ensures updated <==> SaysUpdated(old(series), Concerning(channel, node))
    {
      hide AbsorbAll, SaysUpdated, Concerning, NonZero;
      updated := false;
      ghost var s := series;
      NoTicks(s, channel);
      for k := 0 to |node|
        invariant Valid() && series == AbsorbAll(s, Concerning(channel, node[..k]))
        invariant updated <==> SaysUpdated(s, Concerning(channel, node[..k]))
      {
        ConcerningNext(channel, node, k);
        if node[k].channel == channel {
          updated := OnTicks(node[k].ticks, updated, s, Concerning(channel, node[..k]));
        }
      }
      assert node[..|node|] == node;
    }

    /** The ticks of one packet, behind those of the message so far. */
    method OnTicks(ticks: seq<Tick>, before: bool, ghost s: seq<Tick>, ghost done: seq<Tick>) returns (updated: bool)
      requires Valid() && NonZero(ticks) && series == AbsorbAll(s, done) && (before <==> SaysUpdated(s, done))
      modifies Repr()
      ensures Valid() && series == AbsorbAll(s, done + ticks)
      ensures updated <==> SaysUpdated(s, done + ticks)
    {
      hide AbsorbAll, Absorb, SaysUpdated, NewTime, Valid;
      updated := before;
      assert done + ticks[..0] == done;
      for i := 0 to |ticks|
        invariant Valid() && series == AbsorbAll(s, done + ticks[..i])
        invariant updated <==> SaysUpdated(s, done + ticks[..i])
      {
        OneMore(s, done + ticks[..i], ticks[i]);
        assert done + ticks[..i + 1] == done + ticks[..i] + [ticks[i]];
        updated := OnTick(ticks[i].time, ticks[i].value, updated);
      }
      assert ticks[..|ticks|] == ticks;
    }

    // The trading tests compare the two indicators at the last two complete minutes.

    method CrossForUp() returns (yes: bool)
      requires Valid()
      ensures yes <==> CrossedUp(series)
    {
      var size := marocWin.GetSize();
      if size >= 3 {
        var roc1, maroc1, roc2, maroc2 := LastTwo();
        if roc1 > maroc1 && roc2 < maroc2 && maroc1 > maroc2 {
          return true;
        }
      }
      return false;
    }

    method StayForUp() returns (yes: bool)
      requires Valid()
      ensures yes <==> StayedUp(series)
    {
      var size := marocWin.GetSize();
      if size >= 3 {
        var roc1, maroc1, roc2, maroc2 := LastTwo();
        if roc1 > maroc1 && roc2 > maroc2 && maroc1 > maroc2 {
          return true;
        }
      }
      return false;
    }

    method CrossForDown() returns (yes: bool)
      requires Valid()
      ensures yes <==> CrossedDown(series)
    {
      var size := marocWin.GetSize();
      if size >= 3 {
        var roc1, maroc1, roc2, maroc2 := LastTwo();
        if roc1 < maroc1 && roc2 > maroc2 {
          return true;
        }
      }
      return false;
    }

    /** The window entries one and two places back that the trading tests read. */
    method LastTwo() returns (roc1: real, maroc1: real, roc2: real, maroc2: real)
      requires Valid() && |series| >= 19
      ensures roc1 == RocAgo(series, 1) && maroc1 == MarocAgo(series, 1)
      ensures roc2 == RocAgo(series, 2) && maroc2 == MarocAgo(series, 2)
    {
      roc1, maroc1 := IndicatorsAgo(1);
      roc2, maroc2 := IndicatorsAgo(2);
    }

    method IndicatorsAgo(k: nat) returns (roc: real, maroc: real)
      requires Valid() && k < 3 && |series| >= 19
      ensures roc == RocAgo(series, k) && maroc == MarocAgo(series, k)
    {
      hide RocSeries, MarocSeries, RocAgo, MarocAgo, Ago, Increasing, NonZero;
      SeriesAligned(series, k);
      var r := rocWin.Get(k);
      var m := marocWin.Get(k);
      return r.value.value, m.value.value;
    }

    /** In every reachable state each rate of change in its window is the percentage by which the price of its
        minute differs from that of eleven minutes before. */
    lemma StoredIsPercent(k: nat)
      requires Valid() && k < |rocWin.Contents()|
      ensures k + 12 <= |series| && Ago(series, k + 11).value != 0.0
      ensures Ago(series, k).value == Ago(series, k + 11).value * (1.0 + Ago(rocWin.Contents(), k).value / 100.0)
    {
      hide RocSeries, MarocSeries, LastN, Increasing, NonZero;
      EndIsPercent(series, k);
    }

    /** In every reachable state the windows are aligned: entries the same number of places back
        belong to the same minute. */
    lemma Aligned(i: nat)
      requires Valid() && i < |marocWin.Contents()|
      ensures i < |rocWin.Contents()| && i < |series|
      ensures Ago(marocWin.Contents(), i).time == Ago(rocWin.Contents(), i).time == Ago(series, i).time
      ensures i < COUNT ==> i < |window.Contents()| && Ago(window.Contents(), i) == Ago(series, i)
      ensures Ago(rocWin.Contents(), i).value == RocAgo(series, i)
      ensures Ago(marocWin.Contents(), i).value == MarocAgo(series, i)
    {
      hide RocSeries, MarocSeries, RocAgo, MarocAgo;
      SeriesAligned(series, i);
    }
  }

  // ----- the stop-loss test -----

  ghost predicate IsMinimum(m: real, v: seq<real>) {
    m in v && forall i | 0 <= i < |v| :: m <= v[i]
  }

  method MIN(v: seq<real>) returns (min: real)
    ensures if v == [] then min == -1.0 else IsMinimum(min, v)
  {
    if |v| == 1 {
      return v[0];
    } else if |v| > 1 {
      min := v[0];
      for i := 1 to |v|
        invariant min in v && forall k | 0 <= k < i :: min <= v[k]
      {
        if min > v[i] {
          min := v[i];
        }
      }
      return min;
    }
    return -1.0;
  }

  lemma MinimumOfRotation(m: real, r: seq<real>, s: seq<real>)
    requires IsRotation(r, s) && IsMinimum(m, r)
    ensures IsMinimum(m, s)
  {
    var k :| 0 <= k <= |s| && r == s[k..] + s[..k];
    forall i | 0 <= i < |s| ensures s[i] in r {
      if i < k {
        assert r[|s| - k + i] == s[i];
      } else {
        assert r[i - k] == s[i];
      }
    }
  }

  class RiskControl {
    const profitWin: Window<real>
    var security: real

    ghost predicate Valid()
      reads this, profitWin
    {
      profitWin.Valid() && profitWin.window.Length == 12
    }

    constructor ()
      ensures Valid() && profitWin.Contents() == [] && fresh(profitWin) && fresh(profitWin.window)
    {
      profitWin := new Window(12);
      security := 0.0;
    }

    /** Records a profit and tests it against the smallest of the last twelve. The profit is already
        among them, so the test can never ask for a sale. */
    method StopLoss(profit: real) returns (sell: bool)
      requires Valid()
      modifies this, profitWin, profitWin.window
      ensures Valid()
      ensures profitWin.Contents() == LastN(old(profitWin.Contents()) + [profit], 12)
      ensures |profitWin.Contents()| == 12 ==> IsMinimum(security, profitWin.Contents())
      ensures !sell
    {
      profitWin.Put(profit);
      var full := profitWin.IsFull();
      if full {
        var size := profitWin.GetSize();
        var range := profitWin.GetRange(0, size);
        var min := MIN(range.value);
        security := min;
        MinimumOfRotation(min, range.value, profitWin.Contents());
        assert profitWin.Contents()[11] == profit;
        return profit < security;
      }
      return false;
    }
  }
}
