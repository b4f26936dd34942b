/**
 The touch daemon: 14-byte packets from a stream, turned into input events; and the
 client that packs them.
 */
module Touch {
  import opened Bytes

  const ABS_MAX := 32767
  const SCREEN_W := 1280
  const SCREEN_H := 800

  predicate U16(v: int) {
    0 <= v < 0x1_0000
  }

  /** A 32-bit signed int holds the value. */
  predicate Int32(v: int) {
    -0x8000_0000 <= v <= 0x7FFF_FFFF
  }

  // ---------------------------------------------------------------------
  // Packets
  // ---------------------------------------------------------------------

  datatype Packet = Packet(cmd: byte, x1: nat, y1: nat, x2: nat, y2: nat, dur: nat)

  /** `buf[i] | (buf[i + 1] << 8)` */
  function Field(buf: Bytes, i: nat): (v: nat)
    requires i + 1 < |buf|
    ensures U16(v)
  {
    buf[i] as int + 256 * buf[i + 1] as int
  }

  function Decode(buf: Bytes): Packet
    requires |buf| == 14
  {
    Packet(buf[0], Field(buf, 2), Field(buf, 4), Field(buf, 6), Field(buf, 8), Field(buf, 10))
  }

  /** `struct.pack("<BBHHHHHH", cmd, 0, x1, y1, x2, y2, dur, 0)` for fields that fit. */
  function Encode(p: Packet): (buf: Bytes)
    ensures |buf| == 14
  {
    [p.cmd, 0] + Le(p.x1, 2) + Le(p.y1, 2) + Le(p.x2, 2) + Le(p.y2, 2) + Le(p.dur, 2) + Le(0, 2)
  }

  predicate Fits(p: Packet) {
    U16(p.x1) && U16(p.y1) && U16(p.x2) && U16(p.y2) && U16(p.dur)
  }

  lemma FieldOfLe(v: nat)
    requires U16(v)
    ensures |Le(v, 2)| == 2 && Le(v, 2)[0] as int + 256 * Le(v, 2)[1] as int == v
  {
    assert Le(v, 2) == [v % 256] + Le(v / 256, 1);
    assert Le(v / 256, 1) == [v / 256 % 256] + Le(v / 256 / 256, 0);
  }

  /** The daemon reads what the client packed. */
  lemma PacketRoundTrip(p: Packet)
    requires Fits(p)
    ensures Decode(Encode(p)) == p
  {
    FieldOfLe(p.x1);
    FieldOfLe(p.y1);
    FieldOfLe(p.x2);
    FieldOfLe(p.y2);
    FieldOfLe(p.dur);
    hide Le;
  }

  /** The packets of a stream; an incomplete one at the end is never acted on. */
  function Packets(stream: Bytes): seq<Packet>
    decreases |stream|
  {
    if |stream| < 14 then [] else [Decode(stream[..14])] + Packets(stream[14..])
  }

  function EncodeAll(ps: seq<Packet>): Bytes {
    if ps == [] then [] else Encode(ps[0]) + EncodeAll(ps[1..])
  }

  /** A stream of client packets decodes to those packets. */
  lemma {:induction false} StreamRoundTrip(ps: seq<Packet>)
    requires forall i | 0 <= i < |ps| :: Fits(ps[i])
    ensures Packets(EncodeAll(ps)) == ps
    decreases |ps|
  {
    if ps != [] {
      PacketRoundTrip(ps[0]);
      hide Encode, Decode, Fits;
      StreamRoundTrip(ps[1..]);
      var stream := EncodeAll(ps);
      assert stream[..14] == Encode(ps[0]) && stream[14..] == EncodeAll(ps[1..]);
    }
  }

  // ---------------------------------------------------------------------
  // Events
  // ---------------------------------------------------------------------

  datatype Event = AbsX(v: int) | AbsY(v: int) | BtnTouch(on: bool) | BtnLeft(on: bool) | Syn

  function Quotient(a: nat, b: nat): (q: int)
    requires b > 0
    ensures q >= 0
  {
    a / b
  }

  /** C's division: toward zero. */
  function TDiv(a: int, b: int): int
    requires b > 0
  {
    if a >= 0 then Quotient(a, b) else -Quotient(-a, b)
  }

  function Position(x: int, y: int): seq<Event> {
    [AbsX(TDiv(x * ABS_MAX, SCREEN_W)), AbsY(TDiv(y * ABS_MAX, SCREEN_H))]
  }

  function Down(x: int, y: int): seq<Event> {
    Position(x, y) + [BtnTouch(true), BtnLeft(true), Syn]
  }

  function Move(x: int, y: int): seq<Event> {
    Position(x, y) + [Syn]
  }

  const UP: seq<Event> := [BtnTouch(false), BtnLeft(false), Syn]

  /** How many moves a swipe of a duration makes. */
  function Steps(dur: int): (n: nat)
    ensures 5 <= n <= 60
  {
    var ms := if dur <= 0 then 200 else dur;
    var n := ms * 60 / 1000;
    if n < 5 then 5 else if n > 60 then 60 else n
  }

  /** One coordinate of point i of a swipe. */
  function Between(a: int, b: int, i: nat, n: nat): int
    requires n > 0
  {
    a + TDiv((b - a) * i, n)
  }

  /** The moves 1 to k of a swipe with n steps. */
  function Moves(p: Packet, k: nat, n: nat): seq<Event>
    requires n > 0
  {
    if k == 0 then []
    else Moves(p, k - 1, n) + Move(Between(p.x1, p.x2, k, n), Between(p.y1, p.y2, k, n))
  }

  function Swipe(p: Packet): seq<Event> {
    Down(p.x1, p.y1) + Moves(p, Steps(p.dur), Steps(p.dur)) + UP
  }

  function EventsOf(p: Packet): seq<Event> {
    if p.cmd == 1 then Down(p.x1, p.y1) + UP
    else if p.cmd == 2 then Down(p.x1, p.y1)
    else if p.cmd == 3 then Move(p.x1, p.y1)
    else if p.cmd == 4 then UP
    else if p.cmd == 5 then Swipe(p)
    else []
  }

  function AllEvents(ps: seq<Packet>): seq<Event> {
    if ps == [] then [] else AllEvents(ps[..|ps| - 1]) + EventsOf(ps[|ps| - 1])
  }

  // ---------------------------------------------------------------------
  // The daemon
  // ---------------------------------------------------------------------

  lemma NoEvents(stream: Bytes)
    ensures AllEvents([]) == [] && stream[0..] == stream && [] + Packets(stream) == Packets(stream)
  {
  }

  lemma EventsSnoc(ps: seq<Packet>, p: Packet)
    ensures AllEvents(ps + [p]) == AllEvents(ps) + EventsOf(p)
  {
    hide EventsOf;
    assert (ps + [p])[..|ps|] == ps;
  }

  lemma PacketsStep(stream: Bytes)
    ensures |stream| < 14 ==> Packets(stream) == []
    ensures |stream| >= 14 ==> Packets(stream) == [Decode(stream[..14])] + Packets(stream[14..])
  {
    hide Decode;
  }

  class Daemon {
    /** What has been written to the event device. */
    var written: seq<Event>

    constructor ()
      ensures written == []
    {
      written := [];
    }

    method EvDown(x: int, y: int)
      modifies this
      ensures written == old(written) + Down(x, y)
    {
      written := written + [AbsX(TDiv(x * ABS_MAX, SCREEN_W))];
      written := written + [AbsY(TDiv(y * ABS_MAX, SCREEN_H))];
      written := written + [BtnTouch(true)];
      written := written + [BtnLeft(true)];
      written := written + [Syn];
    }

    method EvMove(x: int, y: int)
      modifies this
      ensures written == old(written) + Move(x, y)
    {
      written := written + [AbsX(TDiv(x * ABS_MAX, SCREEN_W))];
      written := written + [AbsY(TDiv(y * ABS_MAX, SCREEN_H))];
      written := written + [Syn];
    }

    method EvUp()
      modifies this
      ensures written == old(written) + UP
    {
      written := written + [BtnTouch(false)];
      written := written + [BtnLeft(false)];
      written := written + [Syn];
    }

    method StepCount(dur: int) returns (steps: int)
      ensures steps == Steps(dur)
    {
      var ms := if dur <= 0 then 200 else dur;
      steps := TDiv(ms * 60, 1000);
      if steps < 5 {
        steps := 5;
      }
      if steps > 60 {
        steps := 60;
      }
    }

    method EvSwipe(p: Packet)
      modifies this
      ensures written == old(written) + Swipe(p)
    {
      hide TDiv, Down, Move, Steps;
      var steps := StepCount(p.dur);
      ghost var start := written;
      EvDown(p.x1, p.y1);
      ghost var down := written;
      for i := 1 to steps + 1
        invariant written == down + Moves(p, i - 1, steps)
      {
        var cx := p.x1 + TDiv((p.x2 - p.x1) * i, steps);
        var cy := p.y1 + TDiv((p.y2 - p.y1) * i, steps);
        EvMove(cx, cy);
        Assoc(down, Moves(p, i - 1, steps), Move(cx, cy));
      }
      EvUp();
      hide Moves;
      ghost var moves := Moves(p, steps, steps);
      Assoc(start, Down(p.x1, p.y1), moves);
      Assoc(start, Down(p.x1, p.y1) + moves, UP);
    }

    method Interpret(p: Packet)
      modifies this
      ensures written == old(written) + EventsOf(p)
    {
      hide Down, Move, Swipe;
      match p.cmd {
        case 1 =>
          EvDown(p.x1, p.y1);
          EvUp();
        case 2 => EvDown(p.x1, p.y1);
        case 3 => EvMove(p.x1, p.y1);
        case 4 => EvUp();
        case 5 => EvSwipe(p);
        case _ =>
      }
    }

    /** One read into buf from `total` on: n bytes, 0 at the end of the stream, negative when it fails. */
    method Read(stream: Bytes, pos: nat, buf: array<byte>, total: nat, size: int) returns (n: int)
      requires pos <= |stream| && total < buf.Length == 14
      modifies buf
      ensures n == ReadSize(size, 14 - total, |stream| - pos)
      ensures buf[..total] == old(buf[..total])
      ensures n >= 0 ==> buf[total..total + n] == stream[pos..pos + n]
    {
      n := ReadSize(size, 14 - total, |stream| - pos);
      if n > 0 {
        for j := 0 to n
          invariant buf[..total] == old(buf[..total]) && buf[total..total + j] == stream[pos..pos + j]
        {
          buf[total + j] := stream[pos + j];
        }
      }
    }

    /** Reads until the buffer is full, in whatever pieces the bytes come. */
    method Fill(stream: Bytes, pos: nat, buf: array<byte>, sizes: nat -> int, count: nat)
      returns (ok: bool, pos': nat, count': nat)
      requires pos <= |stream| && buf.Length == 14
      modifies buf
      ensures pos <= pos' <= |stream| && (ok ==> |stream| - pos >= 14)
      ensures !ok ==> |stream| - pos < 14 || exists k: nat :: sizes(k) < 0
      ensures ok ==> pos' == pos + 14 && buf[..] == stream[pos..pos']
    {
      pos', count' := pos, count;
      var total := 0;
      while total < 14
        invariant total <= 14 && pos' == pos + total <= |stream| && buf[..total] == stream[pos..pos']
        decreases 14 - total
      {
        var n := Read(stream, pos', buf, total, sizes(count'));
        if n <= 0 {
          assert n < 0 ==> sizes(count') < 0;
          return false, pos', count';
        }
        count' := count' + 1;
        assert buf[..total + n] == buf[..total] + buf[total..total + n];
        assert stream[pos..pos' + n] == stream[pos..pos'] + stream[pos'..pos' + n];
        total := total + n;
        pos' := pos' + n;
      }
      ok := true;
      assert buf[..] == buf[..total];
    }

    /**
     Serves one connection; `sizes` is how much each read would like to return, negative
     for one that fails. `n` packets are acted on, all of them when no read fails.
     */
    method Serve(stream: Bytes, sizes: nat -> int) returns (ghost n: nat)
      modifies this
      ensures n <= |Packets(stream)| && written == old(written) + AllEvents(Packets(stream)[..n])
      ensures n < |Packets(stream)| ==> exists k: nat :: sizes(k) < 0
    {
      NoEvents(stream);
      hide *;
      var buf := new byte[14](_ => 0);
      var pos, count := 0, 0;
      ghost var seen: seq<Packet> := [];
      while true
        invariant pos <= |stream| && Packets(stream) == seen + Packets(stream[pos..])
        invariant written == old(written) + AllEvents(seen)
        decreases |stream| - pos
      {
        ghost var rest := stream[pos..];
        var ok, next, more := Fill(stream, pos, buf, sizes, count);
        if !ok {
          n := |seen|;
          assert Packets(stream)[..n] == seen;
          PacketsStep(rest);
          return;
        }
        assert buf[..] == rest[..14] && stream[next..] == rest[14..];
        var p := Decode(buf[..]);
        Interpret(p);
        ghost var others := Packets(stream[next..]);
        PacketsStep(rest);
        assert seen + ([p] + others) == (seen + [p]) + others;
        EventsSnoc(seen, p);
        seen := seen + [p];
        pos, count := next, more;
      }
    }
  }

  /** At least one byte, no more than asked for or left; 0 at the end of the stream. */
  function ReadSize(size: int, want: nat, left: nat): (n: int)
    requires want > 0
    ensures n <= want && n <= left && (n < 0 <==> size < 0) && (size >= 0 ==> (n == 0 <==> left == 0))
  {
    var most := if want < left then want else left;
    if size < 0 then -1
    else if size > most then most
    else if size == 0 && most > 0 then 1
    else size
  }

  /** Whatever the splitting, the daemon acts on the client's packets, in order, until a read fails. */
  method ServeClient(d: Daemon, ps: seq<Packet>, sizes: nat -> int) returns (ghost n: nat)
    requires forall i | 0 <= i < |ps| :: Fits(ps[i])
    modifies d
    ensures n <= |ps| && d.written == old(d.written) + AllEvents(ps[..n])
    ensures n < |ps| ==> exists k: nat :: sizes(k) < 0
  {
    StreamRoundTrip(ps);
    n := d.Serve(EncodeAll(ps), sizes);
  }

  // ---------------------------------------------------------------------
  // Buttons
  // ---------------------------------------------------------------------

  datatype Buttons = Buttons(touch: bool, left: bool)

  function Press(b: Buttons, e: Event): Buttons {
    match e
    case BtnTouch(on) => b.(touch := on)
    case BtnLeft(on) => b.(left := on)
    case _ => b
  }

  function PressAll(b: Buttons, es: seq<Event>): Buttons {
    if es == [] then b else Press(PressAll(b, es[..|es| - 1]), es[|es| - 1])
  }

  /** At every Syn both buttons are in the same position. */
  predicate Agree(b: Buttons, es: seq<Event>) {
    forall i | 0 <= i < |es| && es[i] == Syn :: var now := PressAll(b, es[..i]); now.touch == now.left
  }

  lemma {:induction false} PressConcat(b: Buttons, a: seq<Event>, c: seq<Event>)
    ensures PressAll(b, a + c) == PressAll(PressAll(b, a), c)
    decreases |c|
  {
    if c == [] {
      assert a + c == a;
    } else {
      assert (a + c)[..|a + c| - 1] == a + c[..|c| - 1];
      PressConcat(b, a, c[..|c| - 1]);
    }
  }

  /** Both buttons together before, at every Syn, and after. */
  predicate Together(b: Buttons, es: seq<Event>) {
    Agree(b, es) && PressAll(b, es).touch == PressAll(b, es).left
  }

  lemma {:induction false} TogetherConcat(b: Buttons, a: seq<Event>, c: seq<Event>)
    requires Together(b, a) && Together(PressAll(b, a), c)
    ensures Together(b, a + c)
  {
    PressConcat(b, a, c);
    forall i | 0 <= i < |a + c| && (a + c)[i] == Syn
      ensures (var now := PressAll(b, (a + c)[..i]); now.touch == now.left)
    {
      if i < |a| {
        assert (a + c)[..i] == a[..i] && a[i] == Syn;
      } else {
        assert (a + c)[..i] == a + c[..i - |a|] && c[i - |a|] == Syn;
        PressConcat(b, a, c[..i - |a|]);
      }
    }
  }

  lemma PiecesTogether(b: Buttons, x: int, y: int)
    requires b.touch == b.left
    ensures Together(b, Down(x, y)) && Together(b, Move(x, y)) && Together(b, UP)
  {
    var down, move := Down(x, y), Move(x, y);
    hide TDiv;
    assert down[..1] == [down[0]] && down[..2] == [down[0], down[1]] && down[..3] == [down[0], down[1], down[2]];
    assert down[..4] == [down[0], down[1], down[2], down[3]];
    assert PressAll(b, []) == b;
    PressShort(b, down);
    PressShort(b, move);
    PressShort(b, UP);
  }

  /** Unrolling the presses of up to five events. */
  lemma PressShort(b: Buttons, es: seq<Event>)
    requires 3 <= |es| <= 5
    ensures PressAll(b, es[..0]) == b
    ensures PressAll(b, es[..1]) == Press(b, es[0])
    ensures PressAll(b, es[..2]) == Press(PressAll(b, es[..1]), es[1])
    ensures PressAll(b, es[..3]) == Press(PressAll(b, es[..2]), es[2])
    ensures |es| > 3 ==> PressAll(b, es[..4]) == Press(PressAll(b, es[..3]), es[3])
    ensures |es| > 4 ==> PressAll(b, es[..5]) == Press(PressAll(b, es[..4]), es[4])
    ensures es[..|es|] == es
  {
    hide Press;
    assert es[..1][..0] == es[..0] && es[..2][..1] == es[..1] && es[..3][..2] == es[..2];
    if |es| > 3 {
      assert es[..4][..3] == es[..3];
    }
    if |es| > 4 {
      assert es[..5][..4] == es[..4];
    }
  }

  lemma {:induction false} MovesTogether(b: Buttons, p: Packet, k: nat, n: nat)
    requires b.touch == b.left && n > 0
    ensures Together(b, Moves(p, k, n))
  {
    hide Between, Move, Press;
    if k > 0 {
      MovesTogether(b, p, k - 1, n);
      var before, x, y := Moves(p, k - 1, n), Between(p.x1, p.x2, k, n), Between(p.y1, p.y2, k, n);
      PiecesTogether(PressAll(b, before), x, y);
      TogetherConcat(b, before, Move(x, y));
    }
  }

  lemma PacketTogether(b: Buttons, p: Packet)
    requires b.touch == b.left
    ensures Together(b, EventsOf(p))
  {
    hide Together, Down, Move, Moves, PressAll, Agree;
    var down := Down(p.x1, p.y1);
    NothingTogether(b);
    PiecesTogether(b, p.x1, p.y1);
    AfterTogether(b, down);
    PiecesTogether(PressAll(b, down), 0, 0);
    TogetherConcat(b, down, UP);
    if p.cmd == 5 {
      var n := Steps(p.dur);
      var moves := Moves(p, n, n);
      MovesTogether(PressAll(b, down), p, n, n);
      TogetherConcat(b, down, moves);
      AfterTogether(b, down + moves);
      PiecesTogether(PressAll(b, down + moves), 0, 0);
      TogetherConcat(b, down + moves, UP);
    }
  }

  lemma NothingTogether(b: Buttons)
    requires b.touch == b.left
    ensures Together(b, [])
  {
  }

  lemma AfterTogether(b: Buttons, es: seq<Event>)
    requires Together(b, es)
    ensures PressAll(b, es).touch == PressAll(b, es).left
  {
  }

  /** Over every sequence of packets, whatever their commands, the buttons move together. */
  lemma {:induction false} ButtonsTogether(ps: seq<Packet>)
    ensures Together(Buttons(false, false), AllEvents(ps))
    decreases |ps|
  {
    var b := Buttons(false, false);
    hide EventsOf, Press;
    if ps != [] {
      var before := AllEvents(ps[..|ps| - 1]);
      ButtonsTogether(ps[..|ps| - 1]);
      PacketTogether(PressAll(b, before), ps[|ps| - 1]);
      TogetherConcat(b, before, EventsOf(ps[|ps| - 1]));
    }
  }

  // ---------------------------------------------------------------------
  // Swipes
  // ---------------------------------------------------------------------

  lemma QuotientMeans(a: nat, n: nat)
    requires n > 0
    ensures Quotient(a, n) * n <= a < Quotient(a, n) * n + n
  {
  }

  lemma ProductGrows(x: nat, y: nat, n: nat)
    requires x <= y
    ensures x * n <= y * n && (x + 1) * n == x * n + n
  {
    assert (y - x) * n == y * n - x * n;
  }

  lemma QuotientGrows(a: nat, b: nat, n: nat)
    requires a <= b && n > 0
    ensures Quotient(a, n) <= Quotient(b, n)
  {
    hide Quotient;
    QuotientMeans(a, n);
    QuotientMeans(b, n);
    var p, q := Quotient(a, n), Quotient(b, n);
    if p > q {
      ProductGrows(q + 1, p, n);
      ProductGrows(q, q, n);
    }
  }

  lemma QuotientOfProduct(d: nat, n: nat)
    requires n > 0
    ensures Quotient(d * n, n) == d
  {
    hide Quotient;
    var q := Quotient(d * n, n);
    QuotientMeans(d * n, n);
    if q < d {
      ProductGrows(q + 1, d, n);
      ProductGrows(q, q, n);
    } else if q > d {
      ProductGrows(d + 1, q, n);
      ProductGrows(d, d, n);
    }
  }

  lemma TDivGrows(a: int, b: int, n: nat)
    requires a <= b && n > 0
    ensures TDiv(a, n) <= TDiv(b, n)
  {
    hide Quotient;
    if a >= 0 {
      QuotientGrows(a, b, n);
    } else if b < 0 {
      QuotientGrows(-b, -a, n);
    }
  }

  lemma TDivWhole(d: int, n: nat)
    requires n > 0
    ensures TDiv(d * n, n) == d && TDiv(0, n) == 0
  {
    hide Quotient;
    QuotientOfProduct(0, n);
    if d >= 0 {
      ProductGrows(0, d, n);
      QuotientOfProduct(d, n);
    } else {
      ProductGrows(1, -d, n);
      Negative(d, n);
      QuotientOfProduct(-d, n);
    }
  }

  lemma Negative(d: int, n: int)
    ensures -d * n == -(d * n)
  {
  }

  lemma Zero(d: int)
    ensures d * 0 == 0
  {
  }

  lemma ProductsInOrder(d: nat, i: nat, j: nat, n: nat)
    requires i <= j <= n
    ensures 0 <= d * i <= d * j <= d * n
  {
    ProductGrows(0, i, d);
    ProductGrows(i, j, d);
    ProductGrows(j, n, d);
  }

  /** One axis of a swipe: it starts at a, ends exactly at b and never turns back. */
  lemma AxisIsMonotone(a: int, b: int, n: nat, i: nat, j: nat)
    requires n > 0 && i <= j <= n
    ensures Between(a, b, 0, n) == a && Between(a, b, n, n) == b
    ensures a <= b ==> a <= Between(a, b, i, n) <= Between(a, b, j, n) <= b
    ensures a >= b ==> a >= Between(a, b, i, n) >= Between(a, b, j, n) >= b
  {
    var d := b - a;
    hide TDiv;
    TDivWhole(d, n);
    Zero(d);
    if d >= 0 {
      ProductsInOrder(d, i, j, n);
      TDivGrows(0, d * i, n);
      TDivGrows(d * i, d * j, n);
      TDivGrows(d * j, d * n, n);
    } else {
      ProductsInOrder(-d, i, j, n);
      Negative(d, i);
      Negative(d, j);
      Negative(d, n);
      TDivGrows(d * i, 0, n);
      TDivGrows(d * j, d * i, n);
      TDivGrows(d * n, d * j, n);
    }
  }

  lemma ScreenPosition(x: int)
    requires U16(x)
    ensures Int32(x * ABS_MAX) && 0 <= TDiv(x * ABS_MAX, SCREEN_W) && 0 <= TDiv(x * ABS_MAX, SCREEN_H)
  {
  }

  /** Every intermediate result of a swipe of any packet fits a 32-bit int. */
  lemma SwipeNeverOverflows(p: Packet, i: nat)
    requires Fits(p) && i <= Steps(p.dur)
    ensures var n, dur := Steps(p.dur), if p.dur <= 0 then 200 else p.dur;
            && Int32(dur * 60) && Int32(dur * 1000) && Int32((p.x2 - p.x1) * i) && Int32((p.y2 - p.y1) * i)
            && U16(Between(p.x1, p.x2, i, n)) && U16(Between(p.y1, p.y2, i, n))
            && Int32(Between(p.x1, p.x2, i, n) * ABS_MAX) && Int32(Between(p.y1, p.y2, i, n) * ABS_MAX)
  {
    var n := Steps(p.dur);
    hide Between, Steps;
    AxisIsMonotone(p.x1, p.x2, n, i, n);
    AxisIsMonotone(p.y1, p.y2, n, i, n);
    ScreenPosition(Between(p.x1, p.x2, i, n));
    ScreenPosition(Between(p.y1, p.y2, i, n));
    Product(p.x2 - p.x1, i);
    Product(p.y2 - p.y1, i);
  }

  lemma Product(d: int, i: nat)
    requires -0xFFFF <= d <= 0xFFFF && i <= 60
    ensures -0xFFFF * 60 <= d * i <= 0xFFFF * 60
  {
    if d >= 0 {
      ProductGrows(d, 0xFFFF, i);
    } else {
      ProductGrows(-d, 0xFFFF, i);
      Negative(d, i);
    }
  }

  /** The positions on the device follow the path: they never turn back either. */
  lemma DeviceIsMonotone(x: int, y: int)
    requires x <= y
    ensures TDiv(x * ABS_MAX, SCREEN_W) <= TDiv(y * ABS_MAX, SCREEN_W)
    ensures TDiv(x * ABS_MAX, SCREEN_H) <= TDiv(y * ABS_MAX, SCREEN_H)
  {
    hide TDiv;
    TDivGrows(x * ABS_MAX, y * ABS_MAX, SCREEN_W);
    TDivGrows(x * ABS_MAX, y * ABS_MAX, SCREEN_H);
  }

  /** A swipe presses at its start, releases at its end, and its last move is to (x2, y2). */
  lemma SwipeEndsAtTarget(p: Packet)
    ensures (var n := Steps(p.dur);
             Swipe(p) == Down(p.x1, p.y1) + (Moves(p, n - 1, n) + Move(p.x2, p.y2)) + UP)
  {
    var n := Steps(p.dur);
    hide Steps, Down, Move;
    AxisIsMonotone(p.x1, p.x2, n, n, n);
    AxisIsMonotone(p.y1, p.y2, n, n, n);
  }
}
