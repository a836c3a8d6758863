/** The player: a dot that moves along the strip and is clamped to its ends. */
module Player {
  import opened Numerics
  import opened LedString

  /** Position and direction are private; `speed` is public, so any caller
      may write it between ticks. */
  datatype Player = Player(position: I32, direction: I32, speed: I32)

  const Red: Color := Color(255, 0, 0)

  /** A player standing still at the left end of the strip. */
  function New(direction: I32): (p: Player)
    ensures p.direction == direction
    ensures p.position == 0 && p.speed == 0
  {
    Player(0, direction, 0)
  }

  predicate OnStrip(p: Player, strip: Strip) {
    0 <= p.position < |strip|
  }

  /** Where the player heads before clamping, in unbounded arithmetic. */
  function Target(p: Player): int {
    p.position + p.speed * p.direction
  }

  /** Reference clamp into [0, len-1], independent of the branch order of `Tick`. */
  function ClampInto(x: int, len: nat): (r: int)
    requires 0 < len
  {
    var upper := if x < len - 1 then x else len - 1;
    if upper < 0 then 0 else upper
  }

  /** Moves by `speed * direction` with checked i32 arithmetic, then clamps the
      position into the strip, whose length is converted with `as i32`.
      The strip is only read. */
  function Tick(p: Player, strip: Strip): (r: Result<Player>)
    ensures r.Err? ==> r.fault == Overflow
    ensures 0 < |strip| <= I32_MAX ==>
              (r.Ok? <==> InI32(p.speed * p.direction) && InI32(Target(p)))
    ensures r.Ok? ==> r.value.speed == p.speed && r.value.direction == p.direction
    ensures r.Ok? && 0 < |strip| <= I32_MAX ==> OnStrip(r.value, strip)
    ensures r.Ok? && |strip| <= I32_MAX && 0 <= Target(p) < |strip| ==> r.value.position == Target(p)
    ensures r.Ok? && Target(p) < 0 ==> r.value.position == 0
    ensures r.Ok? && |strip| <= I32_MAX && |strip| <= Target(p) ==> r.value.position == |strip| - 1
  {
    var amount := p.speed * p.direction;
    if !InI32(amount) then Err(Overflow)
    else
      var len := AsI32(|strip|);
      var position := p.position + amount;
      if !InI32(position) then Err(Overflow)
      else if position < 0 then Ok(p.(position := 0))
      else if position >= len then
        if InI32(len - 1) then Ok(p.(position := len - 1)) else Err(Overflow)
      else Ok(p.(position := position))
  }

  /** Paints the player's cell red; the position is cast with `as usize`, so a
      negative position indexes far past the end and panics like any other
      out-of-range position. */
  function Draw(p: Player, strip: Strip): (r: Result<Strip>)
    ensures r.Ok? <==> OnStrip(p, strip)
    ensures r.Err? ==> r.fault == IndexOutOfBounds
    ensures r.Ok? ==> |r.value| == |strip| && r.value[p.position] == Red
    ensures r.Ok? ==> forall j | 0 <= j < |strip| && j != p.position :: r.value[j] == strip[j]
  {
    SetCell(strip, AsUsize(p.position), Red)
  }

  /** A game session: before each tick a caller stores a new speed. */
  function Run(p: Player, strip: Strip, speeds: seq<I32>): (r: Result<Player>)
    ensures r.Ok? ==> r.value.direction == p.direction
    ensures r.Ok? && speeds != [] ==> r.value.speed == speeds[|speeds| - 1]
    decreases |speeds|
  {
    if speeds == [] then Ok(p)
    else
      match Tick(p.(speed := speeds[0]), strip)
      case Err(f) => Err(f)
      case Ok(q) => Run(q, strip, speeds[1..])
  }

  /** A successful tick lands exactly where the reference clamp puts the target. */
  lemma TickIsClamp(p: Player, strip: Strip)
    requires 0 < |strip| <= I32_MAX
    requires InI32(p.speed * p.direction) && InI32(Target(p))
    ensures Tick(p, strip).Ok?
    ensures Tick(p, strip).value == p.(position := ClampInto(Target(p), |strip|))
  {
  }

  /** A new player keeps the given direction, stands still on cell 0 of any
      strip of 1..i32::MAX cells, a tick leaves it where it is, and drawing it paints cell 0. */
  lemma NewPlayerStandsAtStart(direction: I32, strip: Strip)
    requires 0 < |strip| <= I32_MAX
    ensures New(direction).direction == direction && New(direction).speed == 0
    ensures OnStrip(New(direction), strip) && New(direction).position == 0
    ensures Tick(New(direction), strip) == Ok(New(direction))
    ensures Draw(New(direction), strip) == Ok(strip[0 := Red])
  {
  }

  /** A player with speed 0 on the strip is a fixed point of `Tick`. */
  lemma StillPlayerStays(p: Player, strip: Strip)
    requires 0 < |strip| <= I32_MAX && OnStrip(p, strip) && p.speed == 0
    ensures Tick(p, strip) == Ok(p)
  {
  }

  /** On an empty strip the clamp to `len - 1` puts a non-negative target at -1,
      off the strip, so a following `Draw` panics. */
  lemma TickOnEmptyStrip(p: Player, strip: Strip)
    requires |strip| == 0
    requires InI32(p.speed * p.direction) && InI32(Target(p)) && 0 <= Target(p)
    ensures Tick(p, strip) == Ok(p.(position := -1))
    ensures Draw(p.(position := -1), strip) == Err(IndexOutOfBounds)
  {
  }

  /** A strip of 2^31 + 1 cells reads as i32::MIN + 1 after `as i32`, so a
      target beyond it is clamped to i32::MIN, off the strip. */
  lemma TickLeavesStripAboveI32Max(p: Player, strip: Strip)
    requires |strip| == I32_MAX + 2
    requires InI32(p.speed * p.direction) && InI32(Target(p)) && 0 <= Target(p)
    ensures Tick(p, strip) == Ok(p.(position := I32_MIN))
    ensures !OnStrip(Tick(p, strip).value, strip)
  {
    assert AsI32(|strip|) == I32_MIN + 1;
  }

  /** A strip of 2^31 cells reads as i32::MIN after `as i32`; every non-negative
      target is at least that, and `len - 1` then overflows. */
  lemma TickFaultsOnStripOf2To31(p: Player, strip: Strip)
    requires |strip| == I32_MAX + 1
    requires InI32(p.speed * p.direction) && InI32(Target(p)) && 0 <= Target(p)
    ensures Tick(p, strip) == Err(Overflow)
  {
    assert AsI32(|strip|) == I32_MIN;
  }

  /** Whatever speeds are stored between ticks, a session that does not fault
      keeps the player on a strip of 1..i32::MAX cells. */
  lemma {:induction false} RunStaysOnStrip(p: Player, strip: Strip, speeds: seq<I32>)
    requires 0 < |strip| <= I32_MAX && OnStrip(p, strip)
    ensures Run(p, strip, speeds).Ok? ==> OnStrip(Run(p, strip, speeds).value, strip)
    decreases |speeds|
  {
    if speeds != [] {
      var t := Tick(p.(speed := speeds[0]), strip);
      if t.Ok? {
        RunStaysOnStrip(t.value, strip, speeds[1..]);
      }
    }
  }

  /** Largest speed magnitude that cannot overflow from any cell of a strip of
      length `len` when the direction is +1 or -1. */
  function SafeSpeed(len: nat): int {
    I32_MAX - len + 1
  }

  /** With direction +1 or -1 and speeds bounded by `SafeSpeed`, a session never
      faults. */
  lemma {:induction false} RunNeverFaults(p: Player, strip: Strip, speeds: seq<I32>)
    requires 0 < |strip| <= I32_MAX && OnStrip(p, strip)
    requires p.direction == 1 || p.direction == -1
    requires forall i | 0 <= i < |speeds| :: -SafeSpeed(|strip|) <= speeds[i] <= SafeSpeed(|strip|)
    ensures Run(p, strip, speeds).Ok?
    decreases |speeds|
  {
    if speeds != [] {
      var q := p.(speed := speeds[0]);
      assert q.speed * q.direction == speeds[0] || q.speed * q.direction == -speeds[0];
      var t := Tick(q, strip);
      assert t.Ok?;
      RunNeverFaults(t.value, strip, speeds[1..]);
    }
  }
}
