# Digital rain: a verified model of the frame step

`digital_rain.py` draws falling columns of half-width katakana and
(mirrored) Latin glyphs in a curses terminal. Over the rain it reveals a
message one column at a time, holds it, dissolves it, and moves on to the
next message. This project models the logic behind that animation in Dafny:

- the glyph pool constants;
- the placement of a message on the grid (`setup_message`);
- the per-column advance and drawing of the rain;
- the lock / hold / dissolve / rotate state machine of the message overlay;
- the frame loop itself, as a class whose `drops` and `timers` arrays and
  overlay fields are updated in place.

Modules, one per file:

- `Settings` (settings.dfy): the message list, `TRAIL`, `HOLD_SECONDS`, the
  0.05 s timer tick, and `FADE_STEPS` as three emphasis levels (bold,
  normal, dim).
- `Glyphs` (glyphs.dfy): the katakana block, `ASCII`, `REVERSE_ASCII` built
  by mirroring code points, and their concatenation `CHARS`.
- `Layout` (layout.dfy): where a message sits (row and column → character).
- `Screen` (screen.dfy): the terminal as a store of cells. The `Screen`
  class has `Put`, whose off-grid failure is swallowed like the
  `try/except curses.error` around head and trail writes. It also has
  `PutOnGrid`, for the unguarded message writes.
- `Overlay` (overlay.dfy): the overlay state as a value. Each transition is
  a function: lock check, hold check, dissolve tick, rotation.
- `Columns` (columns.dfy): one sweep over the columns, as a function folding
  the column step left to right. This is the specification the frame's
  `for x` loop is proved against.
- `Animation` (animation.dfy): the `Animation` class and its `Frame` method.

The source's inputs from outside become parameters:

- `time.time()` at the lock (line 114) is `lockClock`, and at line 131 it
  is `now`.
- The glyphs `random.choice(CHARS)` draws are the inputs `samples[x]`: the
  head's, then one per trail offset. `Frame` requires each of them to come
  from the pool (`Glyphs.FromPool`).
- The initial `randint`/`uniform` draws are constructor arguments.
- The column `random.choice(list(locked.keys()))` picks is an arbitrary
  locked column, chosen by `:|`. `Frame` returns it.

Timers and speeds are exact `real`s.

A locked column's message character is drawn only in frames where that
column fires. The screen is erased at the start of every frame (line 82),
and a column that does not fire skips the drawing at lines 115-127 (the
`continue` at line 88). So between firings the letter is not on screen,
and the revealed message flickers. `Columns.ColumnPassMessageWins` states
the glyph only for columns that fired, and `Columns.ColumnPassCells` shows
that a column that did not fire draws nothing.

Code and comment disagree in one place: the comment at `digital_rain.py:6`
says the katakana range is U+FF61–U+FF9F. The literal ends at U+FF9D (ﾝ), so
it has 61 glyphs and lacks U+FF9E/U+FF9F. The model follows the literal,
and `Glyphs.KanaIsContiguousBlock` states it.

## Model

| member | source | states |
|---|---|---|
| Glyphs.KanaIsContiguousBlock | digital_rain.py:7-21 | the kana pool is 61 glyphs with codes U+FF61+i in order, ending at U+FF9D; U+FF9E and U+FF9F are absent |
| Glyphs.UppercaseCodes | digital_rain.py:23 | `string.ascii_uppercase` is the 26 codes 'A'+i in order |
| Glyphs.AsciiCodes | digital_rain.py:23 | ASCII is the 26 upper-case letters followed by the digits '0'..'9' |
| Glyphs.Mirror | digital_rain.py:26 | mirroring a letter yields a letter |
| Glyphs.MirrorInvolution | digital_rain.py:26 | mirroring is its own inverse, fixes no letter, and maps 'M' to 'N' |
| Glyphs.MirrorAll | digital_rain.py:26 | the join keeps one glyph per letter (which glyph is stated for the alphabet by ReverseAsciiIsReversedAlphabet) |
| Glyphs.ReverseAsciiIsReversedAlphabet | digital_rain.py:26 | REVERSE_ASCII is the alphabet reversed: position i holds letter 25-i, 'Z' first and 'A' last |
| Glyphs.SubPoolsDistinct | digital_rain.py:7-26 | no glyph repeats inside any of the three sub-pools |
| Glyphs.KanaMembers | digital_rain.py:7-21 | a glyph is in the kana pool iff its code lies in U+FF61..U+FF9D |
| Glyphs.AsciiMembers | digital_rain.py:23 | a glyph is in ASCII iff it is an upper-case letter or a digit |
| Glyphs.ReverseMembers | digital_rain.py:26 | a glyph is in REVERSE_ASCII iff it is an upper-case letter |
| Glyphs.PoolSize | digital_rain.py:29 | CHARS has 61 + 36 + 26 = 123 glyphs |
| Glyphs.PoolWeights | digital_rain.py:29 | each letter occurs twice in CHARS (so it is drawn twice as often), each digit and each kana once, and a glyph that is none of these does not occur |
| Layout.Place | digital_rain.py:73-76 | row height // 2; the keys are exactly the contiguous run from max(0, (width-len)//2) for len columns, and column left+i holds msg[i] |
| Layout.SpanSize | digital_rain.py:76 | the run lo..hi-1 has hi-lo columns |
| Layout.PlaceSize | digital_rain.py:76 | one column per character of the message |
| Layout.PlaceCentred | digital_rain.py:75-76 | when the message fits, every column is on the grid and the right margin equals the left or exceeds it by one |
| Layout.PlaceNarrow | digital_rain.py:75-76 | when the grid is narrower than the message, it starts at column 0 and column `width` (off the grid) is a message column |
| Layout.PlaceSystemOnline | digital_rain.py:73-76 | "SYSTEM ONLINE" on 80 x 24 lands on row 12, columns 33..45, 'S' first and 'E' last |
| Screen.WriteEffect | digital_rain.py:94-106 | an off-grid write changes nothing; an on-grid write sets exactly that cell; every other cell is kept; drawn cells stay on the grid |
| Screen.WriteBelowGridDiscarded | digital_rain.py:94-97 | a write on row `height` (an initial drop of `randint(0, height)`) is discarded |
| Screen.Screen.Put | digital_rain.py:94-106 | a guarded draw updates the cells as Write does |
| Screen.Screen.PutOnGrid | digital_rain.py:116-127 | an unguarded draw needs an on-grid position and sets that cell |
| Screen.Screen.Erase | digital_rain.py:82 | the frame starts from a blank screen |
| Overlay.Fresh | digital_rain.py:67-77 | a freshly set-up message has nothing locked, no completion time and no dissolve; it satisfies the overlay invariant |
| Overlay.LockColumn | digital_rain.py:109-114 | the column locks at stage 0 iff it is an unlocked message column, the overlay is not dissolving and its head row is at or past the message row; nothing else changes; the completion time is set to the clock exactly when this lock makes the locked set equal to the message columns; the invariant is kept |
| Overlay.SubsetOfSameSize | digital_rain.py:113 | comparing `len(locked)` with `len(message_columns)` decides set equality, because locked keys are message columns |
| Overlay.Hold | digital_rain.py:134-136 | dissolve starts iff a truthy completion time is recorded, the overlay is not dissolving, and strictly more than HOLD_SECONDS have passed; only the dissolve flag changes |
| Overlay.DissolveTick | digital_rain.py:138-142 | exactly the picked column's stage rises by one; the column is removed once the stage reaches len(FADE_STEPS); no key is added and other stages are kept; the invariant is kept |
| Overlay.RemainingRemove | digital_rain.py:138-142 | the dissolve measure (sum of len(FADE_STEPS) - stage) can be computed by taking out any locked column first |
| Overlay.RemainingBounds | digital_rain.py:138-142 | the measure lies between the number of locked columns and three times that number, and is 0 iff nothing is locked |
| Overlay.DissolveTickProgress | digital_rain.py:138-142 | every tick lowers the measure by exactly one, so a dissolve ends within 3 x the number of locked columns ticks |
| Overlay.NextIndex | digital_rain.py:150 | `(msg_index + 1) % len(MESSAGES)` is the next index, or 0 after the last, and stays in range |
| Overlay.Rotate | digital_rain.py:146-151 | once dissolving with nothing locked, the index advances by one modulo the message count (wrapping to 0 after the last), the layout is recomputed for the current grid, and the lock state, completion time and dissolve flag are cleared; otherwise nothing changes |
| Overlay.SingleMessageCycle | digital_rain.py:146-151 | with one message and an unchanged grid, rotation re-derives the same layout |
| Columns.NextRow | digital_rain.py:129 | the new drop row `(y + 1) % height` is on the grid: one row down, wrapping from the last row to 0; an initial drop on row `height` goes to row 1 (row 0 on a one-row grid) |
| Columns.SweepEffect | digital_rain.py:85-129 | over the swept columns, a firing column's timer restarts at 0 and its drop moves to NextRow; a column that does not fire gains one tick and keeps its drop; unswept columns keep both |
| Columns.TickedInRange | digital_rain.py:86-89 | timers that start in [0, speed) stay there after a sweep: a timer reaching its speed is reset |
| Columns.AdvancedInRange | digital_rain.py:129 | drop rows stay non-negative, and every column that fired has its drop back on the grid |
| Columns.TrailRow | digital_rain.py:102 | every trail row (y - i) % height lies in [0, height) |
| Columns.DrawTrailColumn | digital_rain.py:100-106 | trail writes touch only their own column, only on the grid |
| Columns.TrailRowsDistinct | digital_rain.py:100-102 | trail offsets fewer than `height` apart land on different rows |
| Columns.DrawTrailCells | digital_rain.py:100-106 | on a grid of at least TRAIL rows each trail offset keeps its own sampled glyph |
| Columns.RainHead | digital_rain.py:93-97 | on a grid of at least TRAIL rows, an on-grid head keeps its sampled glyph in the head style |
| Columns.RainOffGridHead | digital_rain.py:94-97 | on any grid, a head off the grid is dropped and only the trail is drawn |
| Columns.RainTrail | digital_rain.py:99-106 | on a grid of at least TRAIL rows, each trail row holds the glyph sampled for its offset in the trail style |
| Columns.RainColumn | digital_rain.py:93-106 | a column's rain lands only in that column and on the grid, leaving other columns unchanged |
| Columns.FireColumnEffect | digital_rain.py:91-127 | a firing column draws only on the grid and in its own column, keeps every other column's cells, and, once locked, ends with its message character in its fade stage's emphasis on the message row |
| Columns.FireColumnMessageLast | digital_rain.py:115-127 | a locked message column's glyph, in its fade stage's emphasis, is written after its head and trail |
| Columns.ColumnPass | digital_rain.py:85-129 | a sweep keeps the overlay invariant, the layout, the message index and the dissolve flag |
| Columns.ColumnPassLocks | digital_rain.py:109-112 | the sweep locks exactly the fired, unlocked message columns whose head is at or past the row, while not dissolving; each new lock is at stage 0; existing stages are untouched |
| Columns.ColumnPassCompletion | digital_rain.py:113-114 | during a sweep the completion time changes only to the clock reading and only when all message columns are locked; a sweep that locks the last column records it |
| Columns.ColumnPassNoLockNoChange | digital_rain.py:110-114 | a sweep that adds no lock leaves the whole overlay unchanged; in particular the completion time is only recorded by a sweep that adds a lock |
| Columns.HoldSweepChangesNothing | digital_rain.py:110-114 | while a completed message is held, a sweep changes nothing in the overlay, so it cannot restart the hold |
| Columns.ColumnPassCells | digital_rain.py:85-129 | every drawn cell is on the grid and in a column that fired: a skipped column draws nothing |
| Columns.ColumnPassMessageWins | digital_rain.py:115-127 | after a sweep every fired locked column shows its message character on the message row |
| Columns.DissolvingSweepLocksNothing | digital_rain.py:110-127 | while dissolving, a sweep leaves the overlay state unchanged: nothing locks and no stage moves |
| Columns.NarrowGridNeverCompletes | digital_rain.py:75-76 | when message column `width` is off the grid, no sweep locks it, so the message never completes |
| Animation.Animation.constructor | digital_rain.py:55-79 | the arrays hold the drawn initial drops and zero timers, speeds are as drawn, and the overlay is the first message freshly set up |
| Animation.Animation.SetupMessage | digital_rain.py:67-77 | the overlay becomes the fresh set-up of the current message on the given grid |
| Animation.Animation.Frame | digital_rain.py:81-154 | the timers and drop rows become Ticked and Advanced over the grid's columns (per column as SweepEffect says); the screen and overlay equal the sweep, then Hold, at most one DissolveTick on the returned column, and Rotate; the class invariant (timers in [0, speed), drops non-negative, the overlay invariant) is kept |
| Animation.Animation.Sweep | digital_rain.py:85-129 | the `for x` loop computes the column fold ColumnPass, and the timers and drops it leaves are Ticked and Advanced over the grid's columns |
| Animation.Animation.SweepColumn | digital_rain.py:85-129 | one iteration of the `for x` loop extends the fold, Ticked and Advanced by column x |
| Animation.Animation.StepColumn | digital_rain.py:86-129 | only column x's timer and drop change, to TimerAfter and DropAfter; a skipped column changes nothing else; a firing column draws and locks as FireColumn |
| Animation.Animation.LockAndShow | digital_rain.py:108-127 | the in-place lock check is LockColumn, and the message glyph is drawn exactly for a locked message column |
| Animation.DrawRain | digital_rain.py:93-106 | the head write and the trail loop draw exactly Rain |
| Animation.Animation.Settle | digital_rain.py:131-151 | hold, then a dissolve tick iff dissolving with something locked, then rotation, as the Overlay functions say |
| Animation.Animation.CheckHold | digital_rain.py:134-136 | the in-place hold check is Hold |
| Animation.Animation.DissolveStep | digital_rain.py:138-142 | a column is picked iff dissolving with something locked; it is a locked column, and the update is DissolveTick |
| Animation.Animation.CheckRotate | digital_rain.py:146-151 | the in-place rotation is Rotate and keeps the index in range |

## Left out

- Curses set-up, colours, `erase`/`refresh` as terminal calls, `getch` and
  the `q`/`Q` quit (lines 46-53, 156-163): terminal I/O. The screen is an
  abstract store of (glyph, style) cells, and styles stand for colour pairs
  1–3 plus the fade attribute.
- `time.sleep` (lines 143, 157): pacing only. `time.time()` becomes the
  parameters `lockClock` and `now`.
- `pause_start` (lines 65, 147, 153-154): it gates nothing.
- Randomness: sampled glyphs, speeds and drop rows are inputs. Uniformity is not modelled; only
  the glyph multiplicities in CHARS are stated.
- Floating point: timers and speeds are exact reals. The accumulated
  rounding of `timers[x] += 0.05` can move a firing by a frame, and that
  is not captured.
- Animation.Animation.Frame: requires `width <= len(drops)`. The source
  raises IndexError when the terminal has grown since start-up.
- Animation.Animation.Frame: requires `height > 0`. The source's
  `% height` fails on an empty grid.
- Animation.Animation.Frame: requires the message row to be on the grid.
  The message writes at lines 116 and 123 have no handler, so the source
  raises when a shrunken terminal puts a locked column's row off the grid.
  The model requires this for every frame, not only for frames that draw a
  message glyph.
- Screen.Screen.Put: curses also raises, after drawing, on the
  bottom-right cell. Put keeps that cell, which matches what is swallowed
  for the rain. PutOnGrid does not model the raise for a message glyph
  there.
- The message list is a field initialised to the four messages. Rotation
  is proved for any non-empty list.
