/**
 Round-robin graphs as values: a ring of bars with a current position, read by age, and the log
 of bytes that the ring has to agree with (graph_db.c).
 */
module GraphRing {
  import opened Bytes

  /** The traffic of one bar, in and out. */
  datatype Bar = Bar(inn: nat, out: nat)

  const EMPTY: Bar := Bar(0, 0)


  datatype Ring = Ring(bars: seq<Bar>, pos: nat)

  predicate ValidRing(r: Ring) {
    r.pos < |r.bars|
  }

  /** The number of bars of the four graphs: seconds, minutes, hours, days. */
  const SIZES: seq<nat> := [60, 60, 24, 31]

  ghost predicate ValidRings(rs: seq<Ring>) {
    |rs| == 4 && forall i :: 0 <= i < 4 ==> ValidRing(rs[i]) && |rs[i].bars| == SIZES[i]
  }

  /** An index that has left the ring by less than one turn, brought back into it. */
  function Wrap(x: int, n: nat): (y: nat)
    requires 0 <= x + n && x < 2 * n
    ensures n > 0 ==> y < n
  {
    if x < 0 then x + n else if x < n then x else x - n
  }

  /** The bar that was current `k` bars ago. */
  function Age(r: Ring, k: nat): Bar
    requires ValidRing(r) && k < |r.bars|
  {
    r.bars[Wrap(r.pos - k, |r.bars|)]
  }

  /** All bars, youngest first. */
  ghost function View(r: Ring): (v: seq<Bar>)
    requires ValidRing(r)
    ensures |v| == |r.bars|
  {
    seq(|r.bars|, k requires 0 <= k < |r.bars| => Age(r, k))
  }

  /** What an age-indexed view becomes when `d` bars pass: it moves back, and empty bars come in. */
  ghost function Shifted(v: seq<Bar>, d: nat): (w: seq<Bar>)
    ensures |w| == |v|
  {
    seq(|v|, k requires 0 <= k < |v| => if k < d then EMPTY else v[k - d])
  }

  datatype Dir = In | Out

  function AddTo(b: Bar, amount: nat, dir: Dir): Bar {
    match dir
    case In => b.(inn := Add64(b.inn, amount))
    case Out => b.(out := Add64(b.out, amount))
  }

  // ----- The operations on one ring -----

  function Accounted(r: Ring, amount: nat, dir: Dir): Ring
    requires ValidRing(r)
  {
    r.(bars := r.bars[r.pos := AddTo(r.bars[r.pos], amount, dir)])
  }

  /** One step of the loop in advance(): on to the next bar, which is emptied. */
  function NextBar(r: Ring): (q: Ring)
    requires ValidRing(r)
    ensures ValidRing(q) && |q.bars| == |r.bars|
  {
    var p := Wrap(r.pos + 1, |r.bars|);
    Ring(r.bars[p := EMPTY], p)
  }

  /** The number of bars from position `p` on to position `q`. */
  function Distance(p: nat, q: nat, n: nat): nat
    requires p < n && q < n
  {
    Wrap(q - p, n)
  }

  /** advance(): bars are emptied up to and including the new position; nothing happens if it is the current one. */
  function Advanced(r: Ring, pos: nat): (q: Ring)
    requires ValidRing(r) && pos < |r.bars|
    ensures ValidRing(q) && |q.bars| == |r.bars|
    decreases Distance(r.pos, pos, |r.bars|)
  {
    if r.pos == pos then r else Advanced(NextBar(r), pos)
  }

  /** rotate(): all bars move round so that the current one comes to the new position. */
  function Rotated(r: Ring, pos: nat): (q: Ring)
    requires ValidRing(r) && pos < |r.bars|
    ensures ValidRing(q) && |q.bars| == |r.bars|
  {
    var n := |r.bars|;
    Ring(seq(n, i requires 0 <= i < n => r.bars[Wrap(i + r.pos - pos, n)]), pos)
  }

  function Zeroed(r: Ring): Ring {
    r.(bars := seq(|r.bars|, _ => EMPTY))
  }

  // ----- What they do to the view -----

  lemma NextBarView(r: Ring)
    requires ValidRing(r)
    ensures View(NextBar(r)) == Shifted(View(r), 1)
  {
    var n, q := |r.bars|, NextBar(r);
    forall k | 0 <= k < n
      ensures View(q)[k] == Shifted(View(r), 1)[k]
    {
      assert k > 0 ==> Wrap(q.pos - k, n) == Wrap(r.pos - (k - 1), n) != q.pos;
    }
  }

  lemma ShiftedTwice(v: seq<Bar>, c: nat, d: nat)
    ensures Shifted(Shifted(v, c), d) == Shifted(v, c + d)
  {
  }

  /** advance() moves the view back by the number of bars passed. */
  lemma {:induction false} AdvancedView(r: Ring, pos: nat)
    requires ValidRing(r) && pos < |r.bars|
    ensures View(Advanced(r, pos)) == Shifted(View(r), Distance(r.pos, pos, |r.bars|))
    ensures Advanced(r, pos).pos == pos
    decreases Distance(r.pos, pos, |r.bars|)
  {
    if r.pos != pos {
      NextBarView(r);
      AdvancedView(NextBar(r), pos);
      ShiftedTwice(View(r), 1, Distance(NextBar(r).pos, pos, |r.bars|));
    } else {
      assert Shifted(View(r), 0) == View(r);
    }
  }

  /** rotate() does not change the view at all. */
  lemma RotatedView(r: Ring, pos: nat)
    requires ValidRing(r) && pos < |r.bars|
    ensures View(Rotated(r, pos)) == View(r)
  {
    var n, q := |r.bars|, Rotated(r, pos);
    forall k | 0 <= k < n
      ensures View(q)[k] == View(r)[k]
    {
      assert Wrap(Wrap(pos - k, n) + r.pos - pos, n) == Wrap(r.pos - k, n);
    }
  }

  lemma AccountedView(r: Ring, amount: nat, dir: Dir)
    requires ValidRing(r)
    ensures View(Accounted(r, amount, dir)) == View(r)[0 := AddTo(View(r)[0], amount, dir)]
  {
  }

  lemma ZeroedView(r: Ring)
    requires ValidRing(r)
    ensures View(Zeroed(r)) == Shifted(View(r), |r.bars|)
  {
  }

  // ----- One ring and the clock -----

  datatype Kind = Seconds | Minutes | Hours

  function Bars(k: Kind): nat {
    match k
    case Seconds => 60
    case Minutes => 60
    case Hours => 24
  }

  function BarSecs(k: Kind): nat {
    match k
    case Seconds => 1
    case Minutes => 60
    case Hours => 3600
  }

  /** The seconds in one turn of the ring. */
  function Span(k: Kind): (s: nat)
    ensures s == Bars(k) * BarSecs(k)
  {
    match k
    case Seconds => 60
    case Minutes => 3600
    case Hours => 86400
  }

  /** The number of the bar that time `t` falls into, for a local time that is `offset` seconds ahead. */
  function BarNo(k: Kind, offset: int, t: int): int {
    (t + offset) / BarSecs(k)
  }

  /** The bar index that localtime() gives: the second, minute or hour of `t`. */
  function Index(k: Kind, offset: int, t: int): (i: nat)
    ensures i < Bars(k)
  {
    BarNo(k, offset, t) % Bars(k)
  }

  /**
   graph_rotate() for one ring that turns round in `span` seconds, when the time was `last` before
   (0 for never) and is `t` now, with bar index `idx`.
   */
  function Turned(span: nat, r: Ring, last: int, t: int, idx: nat): (q: Ring)
    requires ValidRing(r) && idx < |r.bars|
    ensures ValidRing(q) && |q.bars| == |r.bars|
  {
    if last == 0 then r.(pos := idx)
    else if t == last then r
    else if t < last then Rotated(r, idx)
    else Advanced(if t - last >= span then Zeroed(r) else r, idx)
  }

  /** What a turn does to any running ring, the ring of days included, whatever the calendar says. */
  lemma TurnedShifts(span: nat, r: Ring, last: int, t: int, idx: nat)
    requires ValidRing(r) && idx < |r.bars| && last != 0 && (t == last ==> idx == r.pos)
    ensures var q, n := Turned(span, r, last, t, idx), |r.bars|;
            && q.pos == idx
            && View(q) == Shifted(View(r), if t <= last then 0
                                           else if t - last >= span then n
                                           else Distance(r.pos, idx, n))
  {
    var n := |r.bars|;
    if t <= last {
      assert Shifted(View(r), 0) == View(r);
      RotatedView(r, idx);
    } else if t - last >= span {
      ZeroedView(r);
      AdvancedView(Zeroed(r), idx);
      ShiftedTwice(View(r), n, Distance(r.pos, idx, n));
      ShiftedOut(View(r), n + Distance(r.pos, idx, n), n);
    } else {
      AdvancedView(r, idx);
    }
  }

  lemma TurnedPosition(span: nat, r: Ring, last: int, t: int, idx: nat)
    requires ValidRing(r) && idx < |r.bars| && (last != 0 && t == last ==> idx == r.pos)
    ensures Turned(span, r, last, t, idx).pos == idx
  {
    if last != 0 {
      TurnedShifts(span, r, last, t, idx);
    }
  }

  /** The number of bars that pass when the time goes forward from `last` to `t`. */
  function Passed(k: Kind, offset: int, last: int, t: int): (d: nat) {
    if t <= last then 0 else BarNo(k, offset, t) - BarNo(k, offset, last)
  }

  /** A step forward by exactly one turn of the ring that the comparison of seconds does not notice. */
  predicate Blind(k: Kind, offset: int, last: int, t: int) {
    last != 0 && t > last && t - last < Span(k) && Passed(k, offset, last, t) == Bars(k)
  }

  lemma IndexDistance(k: Kind, b: int, d: nat)
    requires d <= Bars(k)
    ensures Distance(b % Bars(k), (b + d) % Bars(k), Bars(k)) == if d == Bars(k) then 0 else d
  {
    if k == Hours {
      var c := b % 24 + d;
      assert b + d == 24 * (b / 24) + c;
      assert c >= 24 ==> b + d == 24 * (b / 24 + 1) + (c - 24);
      Remainder24(b + d, if c >= 24 then b / 24 + 1 else b / 24, if c >= 24 then c - 24 else c);
    } else {
      var c := b % 60 + d;
      assert b + d == 60 * (b / 60) + c;
      assert c >= 60 ==> b + d == 60 * (b / 60 + 1) + (c - 60);
      Remainder60(b + d, if c >= 60 then b / 60 + 1 else b / 60, if c >= 60 then c - 60 else c);
    }
  }

  lemma Remainder24(x: int, q: int, r: nat)
    requires x == 24 * q + r && r < 24
    ensures x % 24 == r
  {
  }

  lemma Remainder60(x: int, q: int, r: nat)
    requires x == 60 * q + r && r < 60
    ensures x % 60 == r
  {
  }

  lemma PassedBound(k: Kind, offset: int, last: int, t: int)
    requires t > last
    ensures t - last >= Span(k) ==> Passed(k, offset, last, t) >= Bars(k)
    ensures t - last < Span(k) ==> Passed(k, offset, last, t) <= Bars(k)
  {
    match k
    case Seconds =>
    case Minutes =>
    case Hours =>
  }

  /** A ring of seconds has no blind steps. */
  lemma SecondsNeverBlind(offset: int, last: int, t: int)
    ensures !Blind(Seconds, offset, last, t)
  {
  }

  /**
   A turn of a running ring moves its view back by exactly the number of bars that have passed,
   whatever the bars hold, if and only if the step is not blind. Backward steps move nothing.
   */
  lemma TurnedView(k: Kind, offset: int, r: Ring, last: int, t: int)
    requires ValidRing(r) && |r.bars| == Bars(k) && last != 0 && r.pos == Index(k, offset, last)
    ensures var q := Turned(Span(k), r, last, t, Index(k, offset, t));
            && q.pos == Index(k, offset, t)
            && (!Blind(k, offset, last, t) ==> View(q) == Shifted(View(r), Passed(k, offset, last, t)))
            && (Blind(k, offset, last, t) ==> View(q) == View(r))
  {
    hide View, Shifted, Turned, Index;
    var idx, d := Index(k, offset, t), Passed(k, offset, last, t);
    TurnedShifts(Span(k), r, last, t, idx);
    if t > last {
      PassedBound(k, offset, last, t);
      if t - last >= Span(k) {
        ShiftedOut(View(r), Bars(k), d);
      } else {
        IndexStep(k, offset, last, t);
        ShiftedNone(View(r));
      }
    }
  }

  lemma IndexStep(k: Kind, offset: int, last: int, t: int)
    requires t > last && Passed(k, offset, last, t) <= Bars(k)
    ensures var d := Passed(k, offset, last, t);
            Distance(Index(k, offset, last), Index(k, offset, t), Bars(k)) == if d == Bars(k) then 0 else d
  {
    IndexDistance(k, BarNo(k, offset, last), Passed(k, offset, last, t));
  }

  lemma ShiftedNone(v: seq<Bar>)
    ensures Shifted(v, 0) == v
  {
  }

  lemma ShiftedOut(v: seq<Bar>, c: nat, d: nat)
    requires c >= |v| && d >= |v|
    ensures Shifted(v, c) == Shifted(v, d)
  {
  }

  /** So a blind step is right only for a ring that holds nothing. */
  lemma BlindStepExact(k: Kind, offset: int, r: Ring, last: int, t: int)
    requires ValidRing(r) && |r.bars| == Bars(k) && last != 0 && r.pos == Index(k, offset, last)
    ensures View(Turned(Span(k), r, last, t, Index(k, offset, t))) == Shifted(View(r), Passed(k, offset, last, t))
            <==> !Blind(k, offset, last, t) || forall i :: 0 <= i < Bars(k) ==> View(r)[i] == EMPTY
  {
    TurnedView(k, offset, r, last, t);
    if Blind(k, offset, last, t) {
      var w := Shifted(View(r), Bars(k));
      assert forall i :: 0 <= i < Bars(k) ==> w[i] == EMPTY;
    }
  }

  /** A ring of minutes at 00:01:59 with seven bytes in the current bar. */
  const ALMOST_TWO: Ring := Ring(seq(60, i => if i == 1 then Bar(7, 0) else EMPTY), 1)

  /** It takes no notice of almost an hour going by: at 01:01:00 the bytes still stand in the current bar. */
  lemma BlindMinute()
    ensures Blind(Minutes, 0, 119, 3660) && ALMOST_TWO.pos == Index(Minutes, 0, 119)
    ensures View(Turned(Span(Minutes), ALMOST_TWO, 119, 3660, Index(Minutes, 0, 3660)))[0] == Bar(7, 0)
    ensures Shifted(View(ALMOST_TWO), Passed(Minutes, 0, 119, 3660))[0] == EMPTY
  {
    TurnedView(Minutes, 0, ALMOST_TWO, 119, 3660);
  }

  // ----- A leap second -----

  /** The ring after `n` rounds of the loop in advance(). */
  function NextBars(r: Ring, n: nat): (q: Ring)
    requires ValidRing(r)
    ensures ValidRing(q) && |q.bars| == |r.bars|
  {
    if n == 0 then r else NextBar(NextBars(r, n - 1))
  }

  /**
   A position outside the ring, such as second 60, is one that advance() never gets to, and that leaves no
   valid ring when the first rotation stores it.
   */
  lemma LeapSecond(r: Ring, n: nat, pos: nat)
    requires ValidRing(r) && pos >= |r.bars|
    ensures NextBars(r, n).pos != pos && !ValidRing(r.(pos := pos))
  {
  }

  // ----- A clock that shows 0 -----

  /** Taking a new position without moving the bars turns the view round. */
  lemma PlacedView(r: Ring, idx: nat, b: nat)
    requires ValidRing(r) && idx < |r.bars| && b < |r.bars|
    ensures var n := |r.bars|; View(r.(pos := idx))[b] == View(r)[Wrap(b - Distance(r.pos, idx, n), n)]
  {
  }

  /** A ring with no two bars alike. */
  function Various(n: nat, pos: nat): Ring {
    Ring(seq(n, i requires 0 <= i < n => Bar(i + 1, 0)), pos)
  }

  /** What a turn should do to a ring that stands at the position of time 0, and does after any other time. */
  ghost predicate EpochRight(k: Kind, offset: int, r: Ring, t: int)
    requires ValidRing(r) && |r.bars| == Bars(k)
  {
    View(Turned(Span(k), r, 0, t, Index(k, offset, t))) == Shifted(View(r), Passed(k, offset, 0, t))
  }

  /**
   After a time of 0, which the code takes for "never", the turn to time `t` is right for every ring
   if and only if no bar has passed and the position is the same.
   */
  lemma EpochTurnExactly(k: Kind, offset: int, t: int)
    ensures (forall r :: ValidRing(r) && |r.bars| == Bars(k) && r.pos == Index(k, offset, 0) ==> EpochRight(k, offset, r, t))
            <==> Index(k, offset, t) == Index(k, offset, 0) && Passed(k, offset, 0, t) == 0
  {
    hide View, Shifted, Index, Passed, Distance;
    var idx, n, d := Index(k, offset, t), Bars(k), Passed(k, offset, 0, t);
    if idx == Index(k, offset, 0) && d == 0 {
      forall r: Ring | ValidRing(r) && |r.bars| == Bars(k) && r.pos == Index(k, offset, 0)
        ensures EpochRight(k, offset, r, t)
      {
        ShiftedNone(View(r));
      }
    } else {
      var r := Various(n, Index(k, offset, 0));
      VariousWrong(r.pos, idx, n, d);
      assert !EpochRight(k, offset, r, t);
    }
  }

  lemma VariousWrong(pos: nat, idx: nat, n: nat, d: nat)
    requires pos < n && idx < n && (idx != pos || d > 0)
    ensures var r := Various(n, pos); View(r.(pos := idx)) != Shifted(View(r), d)
  {
    var r := Various(n, pos);
    var v, w := View(r.(pos := idx)), Shifted(View(r), d);
    PlacedView(r, idx, 0);
    assert v[0] == r.bars[idx] && View(r)[0] == r.bars[pos];
    assert w[0] == if d > 0 then EMPTY else View(r)[0];
  }

  /** For seconds the turn is right if the bytes in the ring have not gone once round by then. */
  lemma EpochSeconds(offset: int, r: Ring, t: int)
    requires ValidRing(r) && |r.bars| == 60 && r.pos == Index(Seconds, offset, 0)
    requires if t <= 0 then t % 60 == 0 else forall a :: 0 <= a < 60 && View(r)[a] != EMPTY ==> a + t < 60
    ensures EpochRight(Seconds, offset, r, t)
  {
    hide Index, Passed, View, Shifted, Distance;
    EpochDistance(offset, t);
    EpochPlaced(r, Index(Seconds, offset, t), t, Passed(Seconds, offset, 0, t));
  }

  lemma EpochPlaced(r: Ring, idx: nat, t: int, d: nat)
    requires ValidRing(r) && |r.bars| == 60 && idx < 60 && Distance(r.pos, idx, 60) == t % 60
    requires d == if t <= 0 then 0 else t
    requires if t <= 0 then t % 60 == 0 else forall a :: 0 <= a < 60 && View(r)[a] != EMPTY ==> a + t < 60
    ensures View(r.(pos := idx)) == Shifted(View(r), d)
  {
    hide View, Distance;
    var v, w := View(r.(pos := idx)), Shifted(View(r), d);
    forall b | 0 <= b < 60
      ensures v[b] == w[b]
    {
      PlacedView(r, idx, b);
    }
    assert v == w;
  }

  lemma EpochDistance(offset: int, t: int)
    ensures Distance(Index(Seconds, offset, 0), Index(Seconds, offset, t), 60) == t % 60
    ensures Passed(Seconds, offset, 0, t) == if t <= 0 then 0 else t
  {
    var i := offset % 60;
    var c := i + t % 60;
    assert offset + t == 60 * (offset / 60 + t / 60) + c;
    Remainder60(offset + t, if c >= 60 then offset / 60 + t / 60 + 1 else offset / 60 + t / 60, if c >= 60 then c - 60 else c);
  }
}
