# purefm table engine, in Dafny

This project models the integer arithmetic core of the purefm FM synthesizer: the
`tables` class of `purefm/DSP/tables.hpp` and the envelope constants `eg_max`,
`eg_mid` and `eg_min`. The synthesizer keeps magnitudes in the log domain, where a
multiplication is an addition. A few integer operations over five lookup tables turn
them back into linear values:

- `logsin` and `log` read a 16384-entry table.
- `exp` decompresses a log-domain value. The low 14 bits select an antilog entry, and
  each unit of the remaining bits halves it.
- `pitch` converts pitch units to a pitch. The low 12 bits select a note ratio, and
  the signed high bits shift it by whole octaves.
- `scale` converts signed semitones from middle C to pitch units.
- `output` clamps and remaps a signed 24-bit envelope to an attenuation. It adds the
  attenuation to a log-domain input and decompresses the sum as `exp` does.

Three modules make up the model.

- `CppInt` (`cpp_int.dfy`) covers C++ `int` and `long` (the newtypes `int32` and
  `int64`) and the right and left shift by a computed count (`Shr`, `Shl`).
  `CppInt.Shr` is defined as k one-bit arithmetic shifts. A lemma proves it equals
  floor division by `2^k`. `CppInt.Shl` is k doublings, proved equal to
  multiplication by `2^k`.
- `FmTables` (`fm_tables.dfy`) holds the table set and the operations. The C++ class
  fills its arrays once, in `init`, and only reads them afterwards. The model
  therefore takes a filled table set as an immutable value `Tables` with five
  sequences, and `Valid` fixes their lengths. Every query is a function of that value.
  A constant mask or shift is written with Euclidean `%`, `/` or `*` by a power of
  two. These agree with `&`, `>>` and `<<` on two's-complement operands.
- `FmTableProperties` (`fm_table_properties.dfy`) holds the lemmas about the
  operations.

Each operation's precondition is the C++ code's own demand. A shift count must be at
least 0 and less than the operand's width, and no signed arithmetic may overflow. The
`...Defined` predicates spell these conditions out for each operation. Any
`int32`/`int64` conversion in a body is checked to stay in range.

Table contents come from `init`, and the model treats them as arbitrary. Three
predicates state the shape `init` evidently produces, and the lemmas that need a shape
require it:

- `FmTableProperties.AntilogShaped`: the exp table is non-negative and
  non-increasing, and its last entry is at least its first entry halved.
  `ExpNonIncreasing` and `OutputNonDecreasing` require it.
- `FmTableProperties.SemitonesAscending`: the semitone table ascends strictly within
  one octave of 4096 units. `ScaleIncreasingAboveZero`, `ScaleSign`,
  `ScaleIncreasing` and `PitchOfScale` require it.
- `FmTableProperties.ExpBoundedBy(t, b)`: every exp entry lies in [0, b).
  `OutputInRange` requires it for a b up to 2^24, and `OutputIn24BitRange` for
  b = 2^16.

`FmTables.Scale` has no contract of its own. `ScaleAboveZero`, `ScaleOdd`,
`ScaleFirstOctave`, `ScaleOctave` and `ScaleOctaveAcrossMiddleC` give its value.

Some behaviour one might expect of this engine is not what the code does:

- One might expect `output` to fall as the envelope rises. In the code an envelope
  above `eg_max` means no attenuation, and one below `eg_min` means maximal
  attenuation. So the attenuation falls as the envelope rises
  (`AttenuationNonIncreasing`), and the output rises with it (`OutputNonDecreasing`).
- One might expect `scale(0) == 0` and `scale(-n) == -scale(n)` for every n. In the
  code `scale(0)` is `_scale[0]` (`ScaleFirstOctave`). Both hold at 0 only if `init`
  stores 0 there. Oddness is proved for every other note (`ScaleOdd`).
- One might expect the octave law `scale(n + 12) == scale(n) + 4096` to hold for
  every n. It is proved on each side of middle C (`ScaleOctave`). Across middle C the
  negative side mirrors the table instead of continuing it. From n = -12 the law needs
  `_scale[0] == 0`. From n = -i, for 0 < i < 12, it needs
  `_scale[i] + _scale[12 - i] == 4096`. `ScaleOctaveAcrossMiddleC` proves both
  conditions necessary and sufficient. An ascending table such as 0, 1, ..., 11
  meets the first and fails the second.
- One might expect `logsin` and `log` to wrap their index by masking, like `exp` and
  `pitch`. The code does not mask, so the model requires the phase to be a table
  index already.
- One might expect very large shift counts in `exp` to drive the result toward zero.
  In C++ a shift by 32 or more is undefined, so the model requires
  `0 <= l < 0x80000` (`FmTables.ExpDefined`).

## Model

| member | source | states |
|---|---|---|
| `FmTableProperties.EnvelopeDomain` | purefm/DSP/tables.hpp:14-16 | `eg_min`, `eg_mid` and `eg_max` bound the signed 24-bit range (2^24 values, with `eg_mid` 0 between them), and `-eg_min - e` maps that range onto [1, 0x1000000] |
| `FmTableProperties.MaskedIndicesInBounds` | purefm/DSP/tables.hpp:20-24 | with the array sizes of the fields, `& 0x3fff` indexes the three 16384-entry tables, `& 0xfff` the note table and `% 12` the semitone table, all within bounds |
| `FmTables.Valid` | purefm/DSP/tables.hpp:20-24 | the table set has the fixed array lengths of the five fields (no contract of its own; every operation requires it) |
| `CppInt.Shr` | purefm/DSP/tables.hpp:42 | `x >> k` keeps the sign of x and never grows its magnitude |
| `CppInt.Shl` | purefm/DSP/tables.hpp:52 | `x << k` keeps the sign of x, keeps zero at zero and never shrinks the magnitude |
| `CppInt.ShrIsFloorDivision` | purefm/DSP/tables.hpp:42 | the arithmetic right shift by k is floor division by 2^k |
| `CppInt.ShlIsMultiplication` | purefm/DSP/tables.hpp:52 | the left shift by k is multiplication by 2^k |
| `FmTables.LogSin` | purefm/DSP/tables.hpp:32-34 | the log-sine entry at the phase; the phase must already be in [0, 0x4000) because nothing masks it |
| `FmTables.Log` | purefm/DSP/tables.hpp:36-38 | the log entry at the phase, unmasked like `logsin` |
| `FmTables.Exp` | purefm/DSP/tables.hpp:40-43 | the masked index is always in bounds; below 0x4000 the result is the table entry unshifted; otherwise it keeps the entry's sign and never exceeds the entry's magnitude |
| `FmTables.Pitch` | purefm/DSP/tables.hpp:46-56 | the masked index is always in bounds; in [0, 4096) the result is the note entry unshifted; either shift direction keeps the note ratio's sign |
| `FmTables.Attenuation` | purefm/DSP/tables.hpp:73-79 | the remapped envelope lies in [0, 0x1000000]; it is maximal exactly when the envelope is at or below `eg_min` and zero exactly when it is above `eg_max` |
| `FmTables.ShiftedAttenuation` | purefm/DSP/tables.hpp:73-81 | after `>>= 6` the attenuation lies in [0, 16 << 14]; it is 16 << 14 exactly at or below `eg_min` and 0 exactly above 0x7fffc0 |
| `FmTables.Output` | purefm/DSP/tables.hpp:72-86 | the output is `exp(input + attenuation) << 7`: its inline decompression is exactly `exp` |
| `FmTableProperties.OutputInRange` | purefm/DSP/tables.hpp:69-85 | with exp entries in [0, b) for a b up to 2^24, every input whose attenuated sum is a defined exp argument gives a defined output (`out << 7` never overflows), and the output lies in [0, b * 128) |
| `FmTableProperties.OutputIn24BitRange` | purefm/DSP/tables.hpp:69-85 | with exp entries below 2^16, the output is in the 24-bit signed positive range [0, 0x800000) for every input whose attenuated sum is a defined exp argument |
| `FmTableProperties.ExpIsScaledEntry` | purefm/DSP/tables.hpp:40-43 | `exp(l) == _exp[l % 0x4000]` floor-divided by `2^(l / 0x4000)` |
| `FmTableProperties.ExpOctaves` | purefm/DSP/tables.hpp:40-43 | adding k units of 0x4000 to the argument shifts the result right by k |
| `FmTableProperties.ExpOctaveDown` | purefm/DSP/tables.hpp:40-43 | `exp(l + 0x4000) == exp(l) >> 1`, which is halving for a non-negative result |
| `FmTableProperties.ExpNonIncreasing` | purefm/DSP/tables.hpp:40-43 | with an antilog-shaped table, exp is non-increasing over its whole defined domain, across the wrap of the index into the next unit |
| `FmTableProperties.PitchOctaves` | purefm/DSP/tables.hpp:46-56 | for f >= 0, k octaves up is the pitch at f shifted left by k, and a pitch defined k octaves up is defined at f |
| `FmTableProperties.PitchOctaveUp` | purefm/DSP/tables.hpp:51-53 | for f >= 0, `pitch(f + 4096) == 2 * pitch(f)` |
| `FmTableProperties.PitchOctaveDown` | purefm/DSP/tables.hpp:48-53 | for f < 0, `pitch(f) == pitch(f + 4096) >> 1`, and the higher octave is defined too |
| `FmTableProperties.PitchBelowZero` | purefm/DSP/tables.hpp:47-50 | for f < 0 the result is `_notes[f & 0xfff]` floor-divided by `2^-(f >> 12)` |
| `FmTableProperties.PitchAboveZero` | purefm/DSP/tables.hpp:47-53 | for f >= 0 the result is `_notes[f & 0xfff]` multiplied by `2^(f >> 12)` |
| `FmTables.Scale` | purefm/DSP/tables.hpp:59-67 | no contract of its own; `ScaleAboveZero`, `ScaleOdd`, `ScaleFirstOctave`, `ScaleOctave` and `ScaleOctaveAcrossMiddleC` give its value |
| `FmTableProperties.ScaleDefinedMirror` | purefm/DSP/tables.hpp:59-66 | whenever a negative note is defined, its mirror image is defined too |
| `FmTableProperties.ScaleOdd` | purefm/DSP/tables.hpp:59-67 | `scale(-n) == -scale(n)` for every n other than 0 |
| `FmTableProperties.ScaleAboveZero` | purefm/DSP/tables.hpp:65 | for n >= 0, `scale(n) == _scale[n % 12] + 4096 * (n / 12)` |
| `FmTableProperties.ScaleFirstOctave` | purefm/DSP/tables.hpp:59-67 | notes 0 to 11 are always defined and read the semitone table directly; in particular `scale(0) == _scale[0]` |
| `FmTableProperties.ScaleOctave` | purefm/DSP/tables.hpp:59-67 | `scale(n + 12) == scale(n) + 4096` when n >= 0 or n < -12 |
| `FmTableProperties.ScaleOctaveAcrossMiddleC` | purefm/DSP/tables.hpp:59-67 | for -12 <= n < 0 the octave law holds exactly when `_scale[0] == 0` (n = -12) or `_scale[-n] + _scale[n + 12] == 4096` (otherwise) |
| `FmTableProperties.ScaleIncreasingAboveZero` | purefm/DSP/tables.hpp:65 | with an ascending semitone table, non-negative notes keep their order, and `scale(n) / 4096` is the octave `n / 12` |
| `FmTableProperties.ScaleSign` | purefm/DSP/tables.hpp:59-67 | with an ascending semitone table, `scale(n)` is negative exactly when n is |
| `FmTableProperties.ScaleIncreasing` | purefm/DSP/tables.hpp:59-67 | with an ascending semitone table, scale is strictly increasing over all defined notes, negative ones included |
| `FmTableProperties.PitchOfScale` | purefm/DSP/tables.hpp:46-67 | scale and pitch share one unit: n >= 0 semitones above middle C sound at the semitone's note ratio shifted left by `n / 12` octaves |
| `FmTableProperties.AttenuationNonIncreasing` | purefm/DSP/tables.hpp:73-81 | the attenuation, before and after `>> 6`, is non-increasing in the envelope |
| `FmTableProperties.OutputBelowFloor` | purefm/DSP/tables.hpp:73-74 | `output(i, e) == output(i, eg_min)` for e < eg_min |
| `FmTableProperties.OutputAboveCeiling` | purefm/DSP/tables.hpp:75-81 | `output(i, e) == output(i, eg_max)` for e > eg_max, because the remap's 1 at eg_max vanishes under `>> 6` |
| `FmTableProperties.OutputUnattenuated` | purefm/DSP/tables.hpp:75-85 | above 0x7fffc0 (so for every e > eg_max) the output is the unattenuated `exp(input) << 7` |
| `FmTableProperties.OutputAtFloor` | purefm/DSP/tables.hpp:73-85 | for input >= 0, at and below eg_min the output is `(exp(input) >> 16) << 7`, i.e. 16 units of attenuation |
| `FmTableProperties.OutputNonDecreasing` | purefm/DSP/tables.hpp:72-86 | with an antilog-shaped table, the output is non-decreasing in the envelope |

## Left out

- `init(double sampleRate)` (tables.hpp:30) is only declared there. It fills the tables
  with floating-point transcendental functions. Table contents are arbitrary in the
  model. The table shapes some lemmas need are stated as the predicates they require.
  As a result `exp(log(x))` recovering x is not modelled.
- `duration_param`, `level_param` and `pitch_param` (tables.hpp:89-93) are only
  declared and have no body to model. Their monotonicity and the `(0, 0x100000]` range
  of `level_param` are not modelled.
- `middleC` (tables.hpp:95) is used only by `init`.
- The empty constructor and virtual destructor (tables.hpp:27-28) do nothing
  observable.
- `FmTables.Exp`: a shift count of 32 or more (l >= 0x80000) or a negative count
  (l < 0) is undefined in C++ and lies outside the precondition. The model does not
  give such arguments a "toward zero" meaning.
- `FmTables.Output`: the same shift-count limits apply to `input + attenuation`. An
  `out << 7` whose exact value does not fit an `int` is excluded rather than wrapped.
- `FmTableProperties.OutputIn24BitRange`: the 24-bit signed positive range the
  comments at tables.hpp:71 and :85 give for the output is proved only for exp tables
  whose entries stay below 2^16. The entries `init` actually stores are not modelled.
- `FmTables.Pitch`: shift counts of 64 or more, in either direction, and a left shift
  whose exact value does not fit a `long` are excluded rather than wrapped.
- `FmTables.Scale`: negating INT_MIN, and any overflow of `4096 * (note / 12)`, of
  the sum or of its negation, is excluded.
- `>>` on a negative operand is implementation-defined before C++20. It is modelled
  as the arithmetic shift the targeted compilers emit.
- `<<` on a negative operand is undefined before C++20. `FmTables.Pitch` (through
  `CppInt.Shl`) and `FmTables.Output` (`out * 128`) model it as multiplication by a
  power of two, the value C++20 defines when no overflow occurs.
- The bit-level meaning of `&` is not modelled. A mask `x & (2^k - 1)` is written as
  the Euclidean remainder `x % 2^k`, which equals it on two's-complement values.
- Publishing the tables from one writer to many reader threads is concurrency and has
  no counterpart in a sequential model.
- `purefm/Model/Import/YamahaImporter.h` is a framework-level import interface with
  no logic visible, and it is not part of this model.
