/**
 What the receiver of the touch daemon's events sees: where the pointer stands and
 whether it is pressed, each time the device reports.
 */
module TouchReports {
  import opened Bytes
  import opened Touch

  datatype Pointer = Pointer(x: int, y: int, touch: bool, left: bool)

  function Feel(s: Pointer, e: Event): Pointer {
    match e
    case AbsX(v) => s.(x := v)
    case AbsY(v) => s.(y := v)
    case BtnTouch(on) => s.(touch := on)
    case BtnLeft(on) => s.(left := on)
    case Syn => s
  }

  function After(s: Pointer, es: seq<Event>): Pointer
    decreases |es|
  {
    if es == [] then s else After(Feel(s, es[0]), es[1..])
  }

  /** The pointer at each Syn. */
  function Reports(s: Pointer, es: seq<Event>): seq<Pointer>
    decreases |es|
  {
    if es == [] then []
    else (if es[0] == Syn then [s] else []) + Reports(Feel(s, es[0]), es[1..])
  }

  lemma {:induction false} ReportsConcat(s: Pointer, a: seq<Event>, b: seq<Event>)
    ensures After(s, a + b) == After(After(s, a), b)
    ensures Reports(s, a + b) == Reports(s, a) + Reports(After(s, a), b)
    decreases |a|
  {
    if a == [] {
      assert a + b == b;
    } else {
      hide Feel;
      assert (a + b)[1..] == a[1..] + b;
      ReportsConcat(Feel(s, a[0]), a[1..], b);
    }
  }

  // ---------------------------------------------------------------------
  // Where a point of the screen is on the device
  // ---------------------------------------------------------------------

  /** v is the position on an axis of 32767 steps of point x of `size`, rounded down. */
  predicate OnAxis(v: int, x: nat, size: nat) {
    v * size <= x * 32767 < (v + 1) * size
  }

  predicate Stands(r: Pointer, x: nat, y: nat) {
    OnAxis(r.x, x, 1280) && OnAxis(r.y, y, 800)
  }

  predicate Shows(r: Pointer, x: nat, y: nat, pressed: bool) {
    Stands(r, x, y) && r.touch == pressed && r.left == pressed
  }

  /** c is the i-th of n equal steps from a to b, rounded toward a. */
  predicate OnPath(c: int, a: int, b: int, i: nat, n: nat) {
    if a <= b then (c - a) * n <= (b - a) * i < (c - a + 1) * n
    else (a - c) * n <= (a - b) * i < (a - c + 1) * n
  }

  ghost predicate Passes(r: Pointer, p: Packet, i: nat, n: nat) {
    exists x: nat, y: nat ::
      OnPath(x, p.x1, p.x2, i, n) && OnPath(y, p.y1, p.y2, i, n) && Shows(r, x, y, true)
  }

  /**
   n is the number of frames of a sixtieth of a second in the duration, 200 ms when none
   is given, but no fewer than 5 and no more than 60.
   */
  predicate FramesIn(n: nat, dur: nat) {
    var ms := if dur == 0 then 200 else dur;
    && 5 <= n <= 60
    && (n == 5 || n * 1000 <= ms * 60)
    && (n == 60 || ms * 60 < (n + 1) * 1000)
  }

  lemma StepsAreFrames(dur: nat)
    ensures FramesIn(Steps(dur), dur)
  {
  }

  lemma PositionStands(s: Pointer, x: nat, y: nat)
    ensures (var r := s.(x := TDiv(x * ABS_MAX, SCREEN_W), y := TDiv(y * ABS_MAX, SCREEN_H)); Stands(r, x, y))
  {
  }

  lemma BetweenOnPath(a: nat, b: nat, i: nat, n: nat)
    requires 0 < n && i <= n
    ensures OnPath(Between(a, b, i, n), a, b, i, n) && Between(a, b, i, n) >= 0
  {
    AxisIsMonotone(a, b, n, i, n);
    if a <= b {
      ForwardStep(b - a, i, n);
    } else {
      ForwardStep(a - b, i, n);
      BackwardStep(a - b, i, n);
    }
    hide TDiv;
  }

  lemma ForwardStep(d: nat, i: nat, n: nat)
    requires 0 < n
    ensures TDiv(d * i, n) * n <= d * i < (TDiv(d * i, n) + 1) * n
  {
    ProductGrows(0, d, i);
    QuotientMeans(d * i, n);
    hide Quotient;
    Distribute(TDiv(d * i, n), n);
  }

  lemma BackwardStep(d: nat, i: nat, n: nat)
    requires 0 < n
    ensures TDiv((0 - d) * i, n) == -TDiv(d * i, n)
  {
    ProductGrows(0, d, i);
    Negative(d, i);
    QuotientOfProduct(0, n);
    Zero(0);
    hide Quotient;
  }

  lemma Distribute(q: int, n: int)
    ensures (q + 1) * n == q * n + n
  {
  }

  // ---------------------------------------------------------------------
  // What a packet shows
  // ---------------------------------------------------------------------

  /** s with its position at point (x, y). */
  function Placed(s: Pointer, x: int, y: int): Pointer {
    s.(x := TDiv(x * ABS_MAX, SCREEN_W), y := TDiv(y * ABS_MAX, SCREEN_H))
  }

  function Pressed(s: Pointer, on: bool): Pointer {
    s.(touch := on, left := on)
  }

  lemma ShortReports(s: Pointer, a: Event, b: Event)
    requires a != Syn && b != Syn
    ensures After(s, [a, b, Syn]) == Feel(Feel(s, a), b)
    ensures Reports(s, [a, b, Syn]) == [Feel(Feel(s, a), b)]
  {
    var last := Feel(Feel(s, a), b);
    assert [a, b, Syn][1..] == [b, Syn] && [b, Syn][1..] == [Syn] && [Syn][1..] == [];
    assert Reports(last, [Syn]) == [last] && After(last, [Syn]) == last;
    assert Reports(Feel(s, a), [b, Syn]) == [last] && After(Feel(s, a), [b, Syn]) == last;
  }

  lemma MoveReports(s: Pointer, x: int, y: int)
    ensures After(s, Move(x, y)) == Placed(s, x, y) && Reports(s, Move(x, y)) == [Placed(s, x, y)]
  {
    var vx, vy := TDiv(x * ABS_MAX, SCREEN_W), TDiv(y * ABS_MAX, SCREEN_H);
    hide TDiv;
    assert Move(x, y) == [AbsX(vx), AbsY(vy), Syn];
    ShortReports(s, AbsX(vx), AbsY(vy));
  }

  lemma UpReports(s: Pointer)
    ensures After(s, UP) == Pressed(s, false) && Reports(s, UP) == [Pressed(s, false)]
  {
    ShortReports(s, BtnTouch(false), BtnLeft(false));
  }

  lemma DownReports(s: Pointer, x: int, y: int)
    ensures After(s, Down(x, y)) == Pressed(Placed(s, x, y), true)
    ensures Reports(s, Down(x, y)) == [Pressed(Placed(s, x, y), true)]
  {
    var vx, vy := TDiv(x * ABS_MAX, SCREEN_W), TDiv(y * ABS_MAX, SCREEN_H);
    hide TDiv;
    var rest := [BtnTouch(true), BtnLeft(true), Syn];
    var here := Placed(s, x, y);
    ShortReports(here, BtnTouch(true), BtnLeft(true));
    assert ([AbsX(vx), AbsY(vy)] + rest)[1..] == [AbsY(vy)] + rest && ([AbsY(vy)] + rest)[1..] == rest;
    assert After(s.(x := vx), [AbsY(vy)] + rest) == After(here, rest);
    assert Reports(s.(x := vx), [AbsY(vy)] + rest) == Reports(here, rest);
  }

  /** Where the pointer of a swipe is after k of its n moves. */
  function OnSwipe(s: Pointer, p: Packet, k: nat, n: nat): Pointer
    requires n > 0
  {
    if k == 0 then s else Placed(s, Between(p.x1, p.x2, k, n), Between(p.y1, p.y2, k, n))
  }

  lemma {:induction false} MovesReport(s: Pointer, p: Packet, k: nat, n: nat)
    requires n > 0
    ensures After(s, Moves(p, k, n)) == OnSwipe(s, p, k, n)
    ensures |Reports(s, Moves(p, k, n))| == k
    ensures forall i | 0 < i <= k :: Reports(s, Moves(p, k, n))[i - 1] == OnSwipe(s, p, i, n)
  {
    if k > 0 {
      MovesReport(s, p, k - 1, n);
      var x, y := Between(p.x1, p.x2, k, n), Between(p.y1, p.y2, k, n);
      var before := OnSwipe(s, p, k - 1, n);
      hide Between, Move, TDiv;
      MoveReports(before, x, y);
      ReportsConcat(s, Moves(p, k - 1, n), Move(x, y));
      hide After, Reports, Moves;
    }
  }

  /** A swipe as the receiver sees it: pressed at its start, through equal steps to its end, released there. */
  ghost predicate IsSwipe(r: seq<Pointer>, p: Packet, n: nat) {
    && FramesIn(n, p.dur) && |r| == n + 2
    && Shows(r[0], p.x1, p.y1, true)
    && (forall i | 0 < i <= n :: Passes(r[i], p, i, n))
    && Shows(r[n], p.x2, p.y2, true)
    && Shows(r[n + 1], p.x2, p.y2, false)
  }

  /** What the receiver sees of a packet when the pointer stood at s. */
  ghost predicate Performs(r: seq<Pointer>, p: Packet, s: Pointer) {
    if p.cmd == 1 then |r| == 2 && Shows(r[0], p.x1, p.y1, true) && Shows(r[1], p.x1, p.y1, false)
    else if p.cmd == 2 then |r| == 1 && Shows(r[0], p.x1, p.y1, true)
    else if p.cmd == 3 then |r| == 1 && Stands(r[0], p.x1, p.y1) && r[0].touch == s.touch && r[0].left == s.left
    else if p.cmd == 4 then r == [s.(touch := false, left := false)]
    else if p.cmd == 5 then exists n :: IsSwipe(r, p, n)
    else r == []
  }

  lemma PlacedShows(s: Pointer, x: nat, y: nat)
    ensures Stands(Placed(s, x, y), x, y)
    ensures Shows(Pressed(Placed(s, x, y), true), x, y, true)
    ensures Shows(Pressed(Placed(s, x, y), false), x, y, false)
    ensures s.touch && s.left ==> Shows(Placed(s, x, y), x, y, true)
  {
    PositionStands(s, x, y);
    hide OnAxis, TDiv;
  }

  lemma MovePasses(s: Pointer, p: Packet, i: nat, n: nat)
    requires s.touch && s.left && 0 < i <= n
    ensures Passes(OnSwipe(s, p, i, n), p, i, n)
    ensures i == n ==> OnSwipe(s, p, i, n) == Placed(s, p.x2, p.y2)
  {
    BetweenOnPath(p.x1, p.x2, i, n);
    BetweenOnPath(p.y1, p.y2, i, n);
    AxisIsMonotone(p.x1, p.x2, n, i, n);
    AxisIsMonotone(p.y1, p.y2, n, i, n);
    PlacedShows(s, Between(p.x1, p.x2, i, n), Between(p.y1, p.y2, i, n));
    hide Between, OnPath, Shows, Placed;
  }

  lemma PressedTwice(s: Pointer, x: int, y: int)
    ensures Pressed(Pressed(s, true), false) == Pressed(s, false)
    ensures Pressed(s, true).touch && Pressed(s, true).left
    ensures Placed(Pressed(s, true), x, y) == Pressed(Placed(s, x, y), true)
  {
    hide TDiv;
  }

  lemma SwipeParts(s: Pointer, p: Packet)
    ensures (var n, start := Steps(p.dur), Pressed(Placed(s, p.x1, p.y1), true);
             && Reports(s, Swipe(p))
                == [start] + Reports(start, Moves(p, n, n)) + [Pressed(OnSwipe(start, p, n, n), false)]
             && After(s, Swipe(p)) == Pressed(OnSwipe(start, p, n, n), false))
  {
    var n, start := Steps(p.dur), Pressed(Placed(s, p.x1, p.y1), true);
    var down, moves := Down(p.x1, p.y1), Moves(p, n, n);
    DownReports(s, p.x1, p.y1);
    MovesReport(start, p, n, n);
    UpReports(OnSwipe(start, p, n, n));
    assert Swipe(p) == down + moves + UP;
    hide *;
    ReportsConcat(s, down, moves);
    ReportsConcat(s, down + moves, UP);
  }

  lemma SwipeReports(s: Pointer, p: Packet)
    ensures IsSwipe(Reports(s, Swipe(p)), p, Steps(p.dur))
    ensures After(s, Swipe(p)) == Reports(s, Swipe(p))[Steps(p.dur) + 1]
  {
    var n, here := Steps(p.dur), Placed(s, p.x1, p.y1);
    var start := Pressed(here, true);
    var moves := Reports(start, Moves(p, n, n));
    var r := Reports(s, Swipe(p));
    StepsAreFrames(p.dur);
    hide Steps, FramesIn, Passes, Shows, Stands, Swipe, Moves, Reports, After, OnSwipe, Placed, Pressed;
    SwipeParts(s, p);
    MovesReport(start, p, n, n);
    PressedTwice(here, p.x2, p.y2);
    PlacedShows(s, p.x1, p.y1);
    PlacedShows(here, p.x2, p.y2);
    PressedTwice(Placed(here, p.x2, p.y2), 0, 0);
    MovePasses(start, p, n, n);
    PassesEnd(start, p.x2, p.y2);
    forall i | 0 < i <= n
      ensures Passes(r[i], p, i, n)
    {
      MovePasses(start, p, i, n);
      assert r[i] == moves[i - 1];
    }
    assert r[n] == moves[n - 1];
  }

  lemma PassesEnd(s: Pointer, x: nat, y: nat)
    requires s.touch && s.left
    ensures Shows(Placed(s, x, y), x, y, true) && Shows(Pressed(Placed(s, x, y), false), x, y, false)
  {
    hide TDiv, Stands;
    PlacedShows(s, x, y);
  }

  /**
   Every packet, from any state of the pointer: a tap presses and releases at its point,
   a swipe goes through its path in as many frames as its duration holds, and an unknown
   command reports nothing. The pointer stays where it was last reported.
   */
  lemma PacketReports(s: Pointer, p: Packet)
    ensures Performs(Reports(s, EventsOf(p)), p, s)
    ensures (var r := Reports(s, EventsOf(p)); After(s, EventsOf(p)) == if r == [] then s else r[|r| - 1])
  {
    hide Down, Move, Swipe, Reports, After, Shows, Stands, Placed, Pressed;
    var here := Placed(s, p.x1, p.y1);
    PlacedShows(s, p.x1, p.y1);
    DownReports(s, p.x1, p.y1);
    MoveReports(s, p.x1, p.y1);
    PlacedKeeps(s, p.x1, p.y1);
    UpReports(s);
    UpReports(Pressed(here, true));
    PressedTwice(here, 0, 0);
    ReportsConcat(s, Down(p.x1, p.y1), UP);
    NothingReports(s);
    SwipeReports(s, p);
  }

  lemma PlacedKeeps(s: Pointer, x: int, y: int)
    ensures Placed(s, x, y).touch == s.touch && Placed(s, x, y).left == s.left
    ensures Pressed(s, false) == s.(touch := false, left := false)
  {
  }

  lemma NothingReports(s: Pointer)
    ensures Reports(s, []) == [] && After(s, []) == s
  {
  }
}
