# rTWANG strip simulation core in Dafny

A model of the two pieces of integer simulation logic of the rTWANG LED-strip
simulator: the player dot (`src/player.rs`), which moves along the strip by
`speed * direction` each tick, is clamped into the strip and is drawn as one red
cell; and the screensaver frame (`src/screensaver.rs`), which fades every cell
and repaints every tenth cell (one "lane", chosen by the time in 250 ms steps)
with one HSV colour.

The strip is a `seq<Color>` whose length is bounded by `isize::MAX`, as for any
Rust vector. The colour operations `nscale8` and HSV→RGB belong to the LED
string type, whose source is not part of this model; they are the function
fields of `LedString.ColorOps`, passed in, and nothing is assumed about their
arithmetic. `set_rgb` and `set_hsv` are taken to overwrite the whole cell.

Integers follow a debug build on a 64-bit target: the i32 multiplication,
addition and subtraction in `tick` are checked and an overflow is the fault `Overflow`;
`len() as i32` keeps the low 32 bits (`Numerics.AsI32`); `position as usize`
sign-extends (`Numerics.AsUsize`), so a negative position indexes far past the
end; an out-of-range index is the fault `IndexOutOfBounds`. Faults are values of
`Numerics.Result`, not preconditions.

The player's attack state is only a set of commented-out fields
(`src/player.rs:30-33`) and there is no enemy in the code, so neither is
modelled. `speed` is `pub` (`src/player.rs:34`), so any caller may write it
between ticks; `Player.Run` models that. A tick is guaranteed to keep the
position in `[0, N-1]` only for strips of 1..i32::MAX cells: on an empty strip
a non-negative target is clamped to -1 (`Player.TickOnEmptyStrip`), and above i32::MAX cells the truncating
`len() as i32` breaks the clamp (`Player.TickLeavesStripAboveI32Max`,
`Player.TickFaultsOnStripOf2To31`).

Files: `numerics.dfy` (machine integers, faults), `led_string.dfy` (cells,
strip, colour operations, indexed write), `player.dfy`, `screensaver.dfy`.

## Model

| member | source | states |
|---|---|---|
| `Player.Tick` | src/player.rs:50-59 | a tick faults only on i32 overflow, and on a strip of 1..i32::MAX cells faults exactly when `speed*direction` or `position + speed*direction` leaves i32; on success speed and direction are kept; on a strip of 1..i32::MAX cells the position lies in `[0, len-1]`, equals the target when the target is on the strip, is 0 below and `len-1` above |
| `Player.TickIsClamp` | src/player.rs:51-58 | without overflow, a tick on a strip of 1..i32::MAX cells sets the position to an independently written clamp of the target into `[0, len-1]` and changes nothing else |
| `Player.TickLeavesStripAboveI32Max` | src/player.rs:52-57 | on a strip of 2^31 + 1 cells, `len() as i32` is i32::MIN + 1, so a non-negative target is clamped to i32::MIN, off the strip |
| `Player.TickFaultsOnStripOf2To31` | src/player.rs:52-57 | on a strip of 2^31 cells, `len() as i32` is i32::MIN, so every non-negative target reaches `len - 1`, which overflows |
| `Player.StillPlayerStays` | src/player.rs:50-59 | a player with speed 0 on a strip of 1..i32::MAX cells is a fixed point of a tick |
| `Player.TickOnEmptyStrip` | src/player.rs:52-57 | on an empty strip a non-negative target is clamped to -1, off the strip, and drawing there faults |
| `Player.Draw` | src/player.rs:46-48 | drawing succeeds exactly when `0 <= position < len`, otherwise faults with an index error; on success the length is kept, the player's cell becomes `[255, 0, 0]` and every other cell is unchanged |
| `Player.New` | src/player.rs:38-44 | `new(d)` has direction `d`, position 0 and speed 0 |
| `Player.NewPlayerStandsAtStart` | src/player.rs:38-48 | `new(d)` has direction `d`, speed 0 and position 0, is on every strip of 1..i32::MAX cells, is left in place by a tick and draws as cell 0 turning red |
| `Player.Run` | src/player.rs:50-59 | a session of ticks, each preceded by a caller's write of the public speed field, keeps the direction and ends with the last speed written |
| `Player.RunStaysOnStrip` | src/player.rs:50-59 | starting on a strip of 1..i32::MAX cells, a session that does not fault ends on the strip, whatever speeds are written |
| `Player.RunNeverFaults` | src/player.rs:51-53 | starting on a strip of 1..i32::MAX cells, with direction ±1 and every speed at most `i32::MAX - len + 1` in magnitude, no tick of a session overflows |
| `Numerics.AsI32` | src/player.rs:52 | `usize as i32` is the identity up to `i32::MAX` and always agrees with its input modulo 2^32 |
| `Numerics.AsUsize` | src/player.rs:47 | `i32 as usize` is the identity on non-negative values and sends negative ones above `isize::MAX`, past any vector's end |
| `LedString.SetCell` | src/player.rs:47 | an indexed write succeeds exactly when the index is below the length, changes only that cell and keeps the length; otherwise it is an index fault |
| `Screensaver.Lane` | src/screensaver.rs:36 | the lit lane is always in `0..9` |
| `Screensaver.LaneConstantInWindow` | src/screensaver.rs:36 | every time in the k-th 250 ms window lights lane `k mod 10` |
| `Screensaver.LaneAdvances` | src/screensaver.rs:36 | 250 ms later (without u32 wrap) the lane is the next one modulo 10 |
| `Screensaver.Frame` | src/screensaver.rs:27-43 | the frame keeps the length; each cell of the lit lane is the HSV colour `(c, 255, 150)`; each other cell is exactly its prior value under `nscale8(_, 250)` |
| `Screensaver.Tick` | src/screensaver.rs:32-41 | the fade loop followed by the lane loop computes exactly `Frame` of the prior strip, time and hue, so the result is a function of those three alone |
| `Screensaver.FrameConstantInWindow` | src/screensaver.rs:36-41 | with the same prior strip and hue, two times in one 250 ms window give the same frame |
| `Screensaver.LaneCellsAgree` | src/screensaver.rs:37-41 | all lit cells of one frame carry the same colour |
| `Screensaver.LitCellsAt250` | src/screensaver.rs:32-41 | on the 144-cell strip at 250 ms the cells with index 1 mod 10 are lit and all others are the prior cells faded |

## Left out

- `src/main.rs`: window, event loop, frame and FPS accounting in `f64`, gamma correction with `powf`, the unused wrapping `red` counter — I/O glue and floating point.
- The hue computation (`src/screensaver.rs:37`) uses `f32` `sin` and a float-to-`u8` cast; the hue is an arbitrary byte input `c`.
- The arithmetic of `nscale8`, HSV→RGB and the rest of the LED string type: its source is not part of this model, so they are uninterpreted parameters; fading toward black and hue-sector properties cannot be stated.
- The commented-out screensaver mode switch (`src/screensaver.rs:28`): the mode is the constant 0, so `Frame` is the fade-and-lane branch unconditionally.
- The attack state machine and the enemy: only commented-out fields exist in the code.
- Release-build wrap-around of i32 arithmetic: the model follows the debug build, where an overflow panics.
- `Screensaver.LaneAdvances`: stated only while `time + 250` fits in u32; wrap-around of the millisecond counter is not modelled, since the program produces it with a saturating float cast.
- Concurrency: the program is single-threaded and tick/draw are plain function calls.
