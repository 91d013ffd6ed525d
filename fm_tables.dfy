/** The table engine of the FM synthesizer: five lookup tables and the integer
    operations that turn log-domain magnitudes into linear values.

    The C++ class fills its tables once, from the sample rate, and only reads
    them afterwards. The model therefore takes a filled table set as an
    immutable value and states every query as a function of it. Constant masks
    and shifts are written as Euclidean `%`, `/` and `*` on powers of two, which
    agree with `&`, `>>` and `<<` on two's-complement operands; shifts by a
    computed count go through `CppInt.Shr` and `CppInt.Shl`. */
module FmTables {
  import opened CppInt

  /** Bounds of the signed 24-bit envelope domain. */
  const EgMax: int32 := 0x7f_ffff
  const EgMid: int32 := 0
  const EgMin: int32 := -0x80_0000

  /** Entries of the logsin, exp and log tables: a 14-bit index. */
  const PhaseSize := 0x4000
  /** Entries of the note table: one octave in 12-bit pitch units. */
  const OctaveSize := 0x1000
  /** Entries of the semitone table. */
  const Semitones := 12

  /** The table set of one engine instance, after it has been filled. */
  datatype Tables = Tables(
    logsin: seq<int32>,
    exp: seq<int32>,
    log: seq<int32>,
    notes: seq<int64>,
    scale: seq<int32>)

  /** The fixed sizes of the C++ arrays. */
  predicate Valid(t: Tables) {
    && |t.logsin| == PhaseSize
    && |t.exp| == PhaseSize
    && |t.log| == PhaseSize
    && |t.notes| == OctaveSize
    && |t.scale| == Semitones
  }

  /** Log-sine of a phase; the source does not mask the phase, so it must
      already be a table index. */
  function LogSin(t: Tables, phase: int32): (r: int32)
    requires Valid(t)
    requires 0 <= phase < PhaseSize as int32
    ensures r == t.logsin[phase]
  {
    t.logsin[phase]
  }

  /** Log of a phase; unmasked like LogSin. */
  function Log(t: Tables, phase: int32): (r: int32)
    requires Valid(t)
    requires 0 <= phase < PhaseSize as int32
    ensures r == t.log[phase]
  {
    t.log[phase]
  }

  /** The shift count `l >> 14` of a 32-bit operand is defined when it lies in [0, 32). */
  predicate ExpDefined(l: int) {
    0 <= l < 32 * PhaseSize
  }

  /** Log-domain value to linear magnitude: the low 14 bits select an antilog
      entry and the high bits halve it once per unit. */
  function Exp(t: Tables, l: int32): (r: int32)
    requires Valid(t)
    requires ExpDefined(l as int)
    ensures l < PhaseSize as int32 ==> r == t.exp[l]
    ensures 0 <= t.exp[l % 0x4000] ==> 0 <= r <= t.exp[l % 0x4000]
    ensures t.exp[l % 0x4000] < 0 ==> t.exp[l % 0x4000] <= r < 0
  {
    var n := t.exp[l % 0x4000];             // _exp[l & 0x3fff]
    Shr(n as int, (l / 0x4000) as nat) as int32  // n >> (l >> 14)
  }

  /** `pitch` shifts a 64-bit value left by `frequency >> 12` or right by its
      negation; both counts must stay below 64 and the left shift must not
      overflow. */
  predicate PitchDefined(t: Tables, f: int32)
    requires Valid(t)
  {
    var shift := f as int / 0x1000;
    if shift < 0 then -shift < 64
    else shift < 64 && InInt64(Shl(t.notes[f % 0x1000] as int, shift))
  }

  /** Pitch units to an actual pitch: the low 12 bits select a note ratio and
      the signed high bits an octave shift. The sign of the note ratio is kept. */
  function Pitch(t: Tables, f: int32): (r: int64)
    requires Valid(t)
    requires PitchDefined(t, f)
    ensures 0 <= f < OctaveSize as int32 ==> r == t.notes[f]
    ensures (r < 0) == (t.notes[f % 0x1000] < 0)
  {
    var p := t.notes[f % 0x1000] as int;    // _notes[frequency & 0xfff]
    var shift := f as int / 0x1000;         // frequency >> 12
    if shift < 0 then
      Shr(p, -shift) as int64               // p >>= -shift
    else
      Shl(p, shift) as int64                // p <<= shift
  }

  /** The magnitude of a note after `note = -note` for a negative note. */
  function NoteMagnitude(note: int32): (m: nat) {
    if note < 0 then -(note as int) else note as int
  }

  /** `_scale[a % 12] + 4096 * (a / 12)` for a non-negative note magnitude. */
  function OctaveOffset(t: Tables, a: nat): (r: int)
    requires Valid(t)
  {
    t.scale[a % Semitones] as int + OctaveSize * (a / Semitones)
  }

  /** `scale` negates the note when it is negative (so not INT_MIN), and then
      computes `4096 * (note / 12)`, the sum with the table entry and possibly
      its negation, each of which must fit an `int`. */
  predicate ScaleDefined(t: Tables, note: int32)
    requires Valid(t)
  {
    && note as int != -0x8000_0000
    && InInt32(OctaveSize * (NoteMagnitude(note) / Semitones))
    && InInt32(OctaveOffset(t, NoteMagnitude(note)))
    && (note < 0 ==> InInt32(-OctaveOffset(t, NoteMagnitude(note))))
  }

  /** Signed semitones from middle C to pitch units. */
  function Scale(t: Tables, note: int32): (r: int32)
    requires Valid(t)
    requires ScaleDefined(t, note)
  {
    var n := OctaveOffset(t, NoteMagnitude(note));
    (if note < 0 then -n else n) as int32
  }

  /** The envelope clamped and remapped to a non-negative attenuation:
      maximal below the domain, none above it, and `-eg_min - envelope` inside. */
  function Attenuation(envelope: int32): (a: int32)
    ensures 0 <= a <= 0x100_0000
    ensures a == 0x100_0000 <==> envelope <= EgMin
    ensures a == 0 <==> EgMax < envelope
  {
    if envelope < EgMin then 0x100_0000
    else if envelope > EgMax then 0
    else -EgMin - envelope
  }

  /** The attenuation after `envelope >>= 6`: at most 16 octaves of 0x4000. */
  function ShiftedAttenuation(envelope: int32): (a: int32)
    ensures 0 <= a <= 16 * 0x4000
    ensures a == 16 * 0x4000 <==> envelope <= EgMin
    ensures a == 0 <==> 0x7f_ffc0 < envelope
  {
    Attenuation(envelope) / 64
  }

  /** `output` adds the attenuation to the input, which must not overflow and
      must leave a shift count in [0, 32), and the final `out << 7` must fit. */
  predicate OutputDefined(t: Tables, input: int32, envelope: int32)
    requires Valid(t)
  {
    var sum := input as int + ShiftedAttenuation(envelope) as int;
    ExpDefined(sum) && InInt32(Exp(t, sum as int32) as int * 128)
  }

  /** Linear output of a log-domain input under an envelope level: the sum of
      the input and the attenuation, decompressed exactly as Exp does, scaled
      by 128. */
  function Output(t: Tables, input: int32, envelope: int32): (r: int32)
    requires Valid(t)
    requires OutputDefined(t, input, envelope)
    ensures var sum := input as int + ShiftedAttenuation(envelope) as int;
            r as int == Exp(t, sum as int32) as int * 128
  {
    var sum := input as int + ShiftedAttenuation(envelope) as int;  // input += envelope
    var out := Shr(t.exp[sum % 0x4000] as int, sum / 0x4000);      // _exp[input & 0x3fff] >> (input >> 14)
    (out * 128) as int32                                            // out << 7
  }
}
