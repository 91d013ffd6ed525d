/** What the table engine guarantees for every table set of the right sizes,
    and what it guarantees under an assumed table shape: the shape the
    synthesizer's initialisation evidently produces (a non-increasing antilog
    table, an ascending semitone table inside one octave), which the
    initialisation code itself does not let us check. */
module FmTableProperties {
  import opened CppInt
  import opened FmTables

  // ----- fields and constants -------------------------------------------

  /** The envelope bounds are the signed 24-bit range with eg_mid at 0, and
      the remap `-eg_min - envelope` sends that range onto [1, 0x1000000],
      `eg_max` to 1 and `eg_min` to 0x1000000. */
  lemma EnvelopeDomain()
    ensures EgMin as int == -0x80_0000 && EgMax as int - EgMin as int + 1 == 0x100_0000
    ensures EgMin < EgMid == 0 < EgMax
    ensures Attenuation(EgMax) == 1 && Attenuation(EgMin) == 0x100_0000
    ensures forall e: int32 :: EgMin <= e <= EgMax ==>
              1 <= Attenuation(e) <= 0x100_0000 && Attenuation(e) as int == 0x80_0000 - e as int
  {
  }

  /** Each mask of the source fits the array it indexes: `& 0x3fff` the three
      16384-entry tables, `& 0xfff` the note table and `% 12` on a magnitude
      the semitone table. */
  lemma MaskedIndicesInBounds(t: Tables, x: int)
    requires Valid(t)
    ensures 0 <= x % 0x4000 < |t.logsin| && |t.logsin| == |t.exp| == |t.log|
    ensures 0 <= x % 0x1000 < |t.notes|
    ensures 0 <= x % 12 < |t.scale|
  {
  }

  // ----- exp -------------------------------------------------------------

  /** Every entry of exp, for a non-negative argument, is the table entry at
      the low 14 bits floor-divided by 2 to the power of the high bits. */
  lemma ExpIsScaledEntry(t: Tables, l: int32)
    requires Valid(t) && ExpDefined(l as int)
    ensures Exp(t, l) as int == t.exp[l as int % 0x4000] as int / Pow2(l as int / 0x4000)
  {
    ShrIsFloorDivision(t.exp[l % 0x4000] as int, (l / 0x4000) as nat);
  }

  /** Adding k units of 0x4000 to the log-domain argument shifts the result
      right by k: each unit halves the magnitude. */
  lemma ExpOctaves(t: Tables, l: int32, k: nat)
    requires Valid(t) && 0 <= l && ExpDefined(l as int + k * 0x4000)
    ensures Exp(t, (l as int + k * 0x4000) as int32) as int == Shr(Exp(t, l) as int, k)
  {
    var l' := (l as int + k * 0x4000) as int32;
    assert l' % 0x4000 == l % 0x4000;
    assert l' as int / 0x4000 == l as int / 0x4000 + k;
    ShrShr(t.exp[l % 0x4000] as int, (l / 0x4000) as nat, k);
  }

  /** One exponent unit halves exp, rounding toward negative infinity. */
  lemma ExpOctaveDown(t: Tables, l: int32)
    requires Valid(t) && 0 <= l && ExpDefined(l as int + 0x4000)
    ensures Exp(t, l + 0x4000) as int == Shr(Exp(t, l) as int, 1)
    ensures 0 <= Exp(t, l) ==> Exp(t, l + 0x4000) == Exp(t, l) / 2
  {
    ExpOctaves(t, l, 1);
  }

  /** The exp table as initialisation evidently leaves it (an assumption, not
      checked against `init`): non-negative, non-increasing, and its last entry
      no smaller than its first entry halved, which is where the next exponent
      unit starts. */
  predicate AntilogShaped(t: Tables)
    requires Valid(t)
  {
    && (forall i :: 0 <= i < PhaseSize ==> 0 <= t.exp[i])
    && (forall i, j :: 0 <= i <= j < PhaseSize ==> t.exp[j] <= t.exp[i])
    && t.exp[0] / 2 <= t.exp[PhaseSize - 1]
  }

  /** With an antilog-shaped table, exp is non-increasing across the whole
      defined domain, including where the index wraps into the next unit. */
  lemma ExpNonIncreasing(t: Tables, l1: int32, l2: int32)
    requires Valid(t) && AntilogShaped(t)
    requires ExpDefined(l1 as int) && ExpDefined(l2 as int) && l1 <= l2
    ensures Exp(t, l2) <= Exp(t, l1)
  {
    var q1, r1 := l1 as int / 0x4000, l1 as int % 0x4000;
    var q2, r2 := l2 as int / 0x4000, l2 as int % 0x4000;
    var e1, e2 := t.exp[r1] as int, t.exp[r2] as int;
    assert Exp(t, l1) as int == Shr(e1, q1);
    assert Exp(t, l2) as int == Shr(e2, q2);
    if q1 == q2 {
      assert r1 <= r2;
      assert e2 <= e1;
      ShrMonotone(e2, e1, q2);
    } else {
      var first, last := t.exp[0] as int, t.exp[PhaseSize - 1] as int;
      assert e2 <= first && last <= e1 && 0 <= last;
      // Exp(l2) <= first >> q2 == (first / 2) >> (q2 - 1) <= last >> (q2 - 1)
      //         <= last >> q1 <= e1 >> q1 == Exp(l1)
      ShrMonotone(e2, first, q2);
      ShrShr(first, 1, q2 - 1);
      ShrMonotone(first / 2, last, q2 - 1);
      ShrAntitone(last, q1, q2 - 1);
      ShrMonotone(last, e1, q1);
    }
  }

  // ----- pitch -----------------------------------------------------------

  /** Every whole octave above a non-negative pitch shifts the note ratio left
      once more; a pitch defined k octaves up is defined at the base. */
  lemma PitchOctaves(t: Tables, f: int32, k: nat)
    requires Valid(t) && 0 <= f
    requires InInt32(f as int + k * 0x1000)
    requires PitchDefined(t, (f as int + k * 0x1000) as int32)
    ensures PitchDefined(t, f)
    ensures Pitch(t, (f as int + k * 0x1000) as int32) as int == Shl(Pitch(t, f) as int, k)
  {
    var f' := (f as int + k * 0x1000) as int32;
    var p := t.notes[f % 0x1000] as int;
    var s := f as int / 0x1000;
    assert f' % 0x1000 == f % 0x1000;
    assert f' as int / 0x1000 == s + k;
    ShlShl(p, s, k);
  }

  /** One octave up doubles a non-negative pitch. */
  lemma PitchOctaveUp(t: Tables, f: int32)
    requires Valid(t) && 0 <= f && f as int + 0x1000 < 0x8000_0000
    requires PitchDefined(t, f + 0x1000)
    ensures PitchDefined(t, f)
    ensures Pitch(t, f + 0x1000) == 2 * Pitch(t, f)
  {
    PitchOctaves(t, f, 1);
  }

  /** Below pitch unit 0 every octave down halves the next higher octave's
      pitch (one more arithmetic right shift). */
  lemma PitchOctaveDown(t: Tables, f: int32)
    requires Valid(t) && f < 0
    requires PitchDefined(t, f)
    ensures PitchDefined(t, f + 0x1000)
    ensures Pitch(t, f) as int == Shr(Pitch(t, f + 0x1000) as int, 1)
  {
    var p := t.notes[f % 0x1000] as int;
    var s := f as int / 0x1000;
    assert (f + 0x1000) % 0x1000 == f % 0x1000;
    assert (f + 0x1000) as int / 0x1000 == s + 1;
    ShrShr(p, -(s + 1), 1);
  }

  /** For a negative pitch the note ratio is floor-divided by 2 to the power of
      the number of octaves below pitch unit 0. */
  lemma PitchBelowZero(t: Tables, f: int32)
    requires Valid(t) && f < 0 && PitchDefined(t, f)
    ensures Pitch(t, f) as int == t.notes[f as int % 0x1000] as int / Pow2(-(f as int / 0x1000))
  {
    ShrIsFloorDivision(t.notes[f % 0x1000] as int, -(f as int / 0x1000));
  }

  /** For a non-negative pitch the note ratio is multiplied by 2 to the power
      of the octave. */
  lemma PitchAboveZero(t: Tables, f: int32)
    requires Valid(t) && 0 <= f && PitchDefined(t, f)
    ensures Pitch(t, f) as int == t.notes[f as int % 0x1000] as int * Pow2(f as int / 0x1000)
  {
    ShlIsMultiplication(t.notes[f % 0x1000] as int, f as int / 0x1000);
  }

  // ----- scale -----------------------------------------------------------

  /** A negative note is defined whenever its mirror image is. */
  lemma ScaleDefinedMirror(t: Tables, note: int32)
    requires Valid(t) && note < 0 && ScaleDefined(t, note)
    ensures ScaleDefined(t, -note)
  {
  }

  /** scale is odd away from middle C. At note 0 itself the sign test fails,
      so scale(0) is scale[0], and oddness there holds only if scale[0] is 0. */
  lemma ScaleOdd(t: Tables, note: int32)
    requires Valid(t) && note != 0 && ScaleDefined(t, note) && ScaleDefined(t, -note)
    ensures Scale(t, -note) as int == -(Scale(t, note) as int)
  {
    assert NoteMagnitude(-note) == NoteMagnitude(note);
  }

  /** For a non-negative note, the semitone's table offset plus 4096 per octave. */
  lemma ScaleAboveZero(t: Tables, note: int32)
    requires Valid(t) && 0 <= note && ScaleDefined(t, note)
    ensures Scale(t, note) as int == t.scale[note % 12] as int + 4096 * (note as int / 12)
  {
  }

  /** Middle C and the rest of its octave read the semitone table directly. */
  lemma ScaleFirstOctave(t: Tables, note: int32)
    requires Valid(t) && 0 <= note < 12
    ensures ScaleDefined(t, note)
    ensures Scale(t, note) == t.scale[note]
  {
  }

  /** Twelve semitones up add one octave, 4096 pitch units, as long as both
      notes lie on the same side of middle C. ScaleOctaveAcrossMiddleC says
      what the law needs when the two notes straddle it. */
  lemma ScaleOctave(t: Tables, note: int32)
    requires Valid(t) && (0 <= note || note < -12)
    requires InInt32(note as int + 12)
    requires ScaleDefined(t, note) && ScaleDefined(t, note + 12)
    ensures Scale(t, note + 12) as int == Scale(t, note) as int + 4096
  {
    var a := NoteMagnitude(note);
    if note < 0 {
      assert NoteMagnitude(note + 12) == a - 12;
      assert (a - 12) % 12 == a % 12 && (a - 12) / 12 == a / 12 - 1;
    } else {
      assert NoteMagnitude(note + 12) == a + 12;
      assert (a + 12) % 12 == a % 12 && (a + 12) / 12 == a / 12 + 1;
    }
  }

  /** Across middle C the octave law depends on the semitone table: from -12
      it needs scale[0] == 0 (scale(0) is scale[0], scale(-12) is
      -(scale[0] + 4096)), and from -i, 0 < i < 12, it needs the entries i and
      12 - i to sum to one octave, 4096, because the negative side mirrors
      the table instead of continuing it. */
  lemma ScaleOctaveAcrossMiddleC(t: Tables, note: int32)
    requires Valid(t) && -12 <= note < 0 && ScaleDefined(t, note)
    ensures ScaleDefined(t, note + 12)
    ensures Scale(t, note + 12) as int == Scale(t, note) as int + 4096
        <==> if note == -12 then t.scale[0] == 0
             else t.scale[note + 12] as int + t.scale[-note] as int == 4096
  {
    var i := -(note as int);
    assert NoteMagnitude(note) == i;
    assert ScaleDefined(t, note + 12) by {
      ScaleFirstOctave(t, note + 12);
    }
    if note == -12 {
      assert Scale(t, note) as int == -(t.scale[0] as int + 4096);
      assert Scale(t, 0) == t.scale[0];
    } else {
      assert Scale(t, note) as int == -(t.scale[i] as int);
      assert Scale(t, note + 12) == t.scale[12 - i];
    }
  }

  /** The semitone table as initialisation evidently leaves it (an assumption,
      not checked against `init`): strictly ascending from a non-negative
      offset and staying inside one octave of 4096 units. */
  predicate SemitonesAscending(t: Tables)
    requires Valid(t)
  {
    && 0 <= t.scale[0]
    && (forall i, j :: 0 <= i < j < Semitones ==> t.scale[i] < t.scale[j])
    && t.scale[Semitones - 1] < OctaveSize as int32
  }

  /** Non-negative notes stay in order and keep their octave. */
  lemma ScaleIncreasingAboveZero(t: Tables, m: int32, n: int32)
    requires Valid(t) && SemitonesAscending(t)
    requires 0 <= m < n && ScaleDefined(t, m) && ScaleDefined(t, n)
    ensures 0 <= Scale(t, m) < Scale(t, n)
    ensures Scale(t, n) as int / 4096 == n as int / 12
  {
    var i, j := m as int % 12, n as int % 12;
    var a, b := m as int / 12, n as int / 12;
    assert 0 <= t.scale[i] < 4096 && 0 <= t.scale[j] < 4096;
    assert Scale(t, n) as int == t.scale[j] as int + 4096 * b;
    DivUnique(Scale(t, n) as int, 4096, b, t.scale[j] as int);
    if a < b {
      assert 4096 * a + 4096 <= 4096 * b;
    }
  }

  /** With an ascending semitone table, notes below middle C map below pitch
      unit 0 and the others to or above it. */
  lemma ScaleSign(t: Tables, n: int32)
    requires Valid(t) && SemitonesAscending(t) && ScaleDefined(t, n)
    ensures n < 0 <==> Scale(t, n) < 0
  {
    var a := NoteMagnitude(n);
    assert 0 <= t.scale[a % 12];
    if n < 0 {
      assert 0 < t.scale[a % 12] || 0 < a / 12 by {
        if a % 12 == 0 { assert 12 <= a; } else { assert t.scale[0] < t.scale[a % 12]; }
      }
    }
  }

  /** With an ascending semitone table, scale is strictly increasing over every
      pair of defined notes: semitones from middle C keep their order in pitch
      units. */
  lemma ScaleIncreasing(t: Tables, m: int32, n: int32)
    requires Valid(t) && SemitonesAscending(t)
    requires m < n && ScaleDefined(t, m) && ScaleDefined(t, n)
    ensures Scale(t, m) < Scale(t, n)
  {
    if 0 <= m {
      ScaleIncreasingAboveZero(t, m, n);
    } else if n < 0 {
      ScaleDefinedMirror(t, m);
      ScaleDefinedMirror(t, n);
      ScaleIncreasingAboveZero(t, -n, -m);
      ScaleOdd(t, m);
      ScaleOdd(t, n);
    } else {
      ScaleSign(t, m);
      ScaleSign(t, n);
    }
  }

  /** scale and pitch share one unit: a note n semitones above middle C sounds
      at its semitone's note ratio shifted left by its octave. */
  lemma PitchOfScale(t: Tables, n: int32)
    requires Valid(t) && SemitonesAscending(t)
    requires 0 <= n && ScaleDefined(t, n)
    requires PitchDefined(t, Scale(t, n))
    ensures 0 <= t.scale[n % 12] < 0x1000
    ensures Pitch(t, Scale(t, n)) as int == Shl(t.notes[t.scale[n % 12]] as int, n as int / 12)
  {
    var s, q := t.scale[n % 12] as int, n as int / 12;
    assert 0 <= s < 0x1000;
    DivUnique(Scale(t, n) as int, 0x1000, q, s);
  }

  // ----- output ----------------------------------------------------------

  /** The attenuation falls as the envelope rises, before and after `>>= 6`. */
  lemma AttenuationNonIncreasing(e1: int32, e2: int32)
    requires e1 <= e2
    ensures Attenuation(e2) <= Attenuation(e1)
    ensures ShiftedAttenuation(e2) <= ShiftedAttenuation(e1)
  {
  }

  /** An envelope below the domain is treated exactly as its lower bound. */
  lemma OutputBelowFloor(t: Tables, input: int32, envelope: int32)
    requires Valid(t) && envelope < EgMin && OutputDefined(t, input, envelope)
    ensures OutputDefined(t, input, EgMin)
    ensures Output(t, input, envelope) == Output(t, input, EgMin)
  {
  }

  /** An envelope above the domain is treated exactly as its upper bound: the
      remap gives 1 there and 0 above, which `>> 6` makes equal. */
  lemma OutputAboveCeiling(t: Tables, input: int32, envelope: int32)
    requires Valid(t) && EgMax < envelope && OutputDefined(t, input, envelope)
    ensures OutputDefined(t, input, EgMax)
    ensures Output(t, input, envelope) == Output(t, input, EgMax)
  {
  }

  /** Near and above the top of the envelope domain the input passes
      unattenuated: the output is the decompressed input scaled by 128. */
  lemma OutputUnattenuated(t: Tables, input: int32, envelope: int32)
    requires Valid(t) && 0x7f_ffc0 < envelope && OutputDefined(t, input, envelope)
    ensures ExpDefined(input as int)
    ensures Output(t, input, envelope) as int == Exp(t, input) as int * 128
  {
  }

  /** At and below the bottom of the envelope domain the input is attenuated
      by 16 exponent units: the unattenuated magnitude shifted right by 16. */
  lemma OutputAtFloor(t: Tables, input: int32, envelope: int32)
    requires Valid(t) && 0 <= input && envelope <= EgMin
    requires OutputDefined(t, input, envelope)
    ensures ExpDefined(input as int)
    ensures Output(t, input, envelope) as int == Shr(Exp(t, input) as int, 16) * 128
  {
    ExpOctaves(t, input, 16);
  }

  /** Every exp entry lies in [0, b): a bound on the table that initialisation
      evidently respects, with b chosen by the caller. */
  predicate ExpBoundedBy(t: Tables, b: int)
    requires Valid(t)
  {
    forall i :: 0 <= i < PhaseSize ==> 0 <= t.exp[i] as int < b
  }

  /** With exp entries in [0, b) for some b up to 2^24, `out << 7` always fits
      an `int`: every input whose attenuated sum is a defined exp argument
      gives a defined output, and that output lies in [0, b << 7). */
  lemma OutputInRange(t: Tables, input: int32, envelope: int32, b: int)
    requires Valid(t) && 0 < b <= 0x100_0000 && ExpBoundedBy(t, b)
    requires ExpDefined(input as int + ShiftedAttenuation(envelope) as int)
    ensures OutputDefined(t, input, envelope)
    ensures 0 <= Output(t, input, envelope) as int < b * 128
  {
  }

  /** Exp entries below 0x1_0000 keep `out` below 2^16 before the `<< 7`, so
      the returned value lies in the non-negative 24-bit signed range
      [0, 0x80_0000) for every defined input. */
  lemma OutputIn24BitRange(t: Tables, input: int32, envelope: int32)
    requires Valid(t) && ExpBoundedBy(t, 0x1_0000)
    requires ExpDefined(input as int + ShiftedAttenuation(envelope) as int)
    ensures OutputDefined(t, input, envelope)
    ensures 0 <= Output(t, input, envelope) < 0x80_0000
  {
    OutputInRange(t, input, envelope, 0x1_0000);
  }

  /** With an antilog-shaped table the output grows (weakly) with the envelope:
      a higher envelope level means less attenuation. */
  lemma OutputNonDecreasing(t: Tables, input: int32, e1: int32, e2: int32)
    requires Valid(t) && AntilogShaped(t) && e1 <= e2
    requires OutputDefined(t, input, e1) && OutputDefined(t, input, e2)
    ensures Output(t, input, e1) <= Output(t, input, e2)
  {
    AttenuationNonIncreasing(e1, e2);
    var s1 := (input as int + ShiftedAttenuation(e1) as int) as int32;
    var s2 := (input as int + ShiftedAttenuation(e2) as int) as int32;
    ExpNonIncreasing(t, s2, s1);
  }
}
