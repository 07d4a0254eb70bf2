/** A row of the board packed into one 64-bit word, four bits per cell:
    column c occupies bits 4c .. 4c+3, so the nine columns use bits 0 .. 35. */
module Packed {

  /** Bit offset of column c inside its row word, col * 4. Tabulated for the nine columns rather
      than written as a conversion from int, which keeps the verifier's bit-vector reasoning cheap;
      OffsetFacts proves the table is 4 * c. */
  function Offset(c: nat): (s: bv64)
    requires c < 9
  {
    [0, 4, 8, 12, 16, 20, 24, 28, 32][c]
  }

  /** The digit b as a 64-bit word ((long) b). Tabulated for the sixteen values a field can hold,
      for the same reason as Offset; DigitBits proves the table is b. */
  function Bits(b: int): bv64
    requires 0 <= b < 16
  {
    [0, 1, 2, 3, 4, 5, 6, 7, 8, 9, 10, 11, 12, 13, 14, 15][b]
  }

  /** The four-bit mask of the field starting at bit s (0xfL << s). */
  function Mask(s: bv64): bv64
    requires s < 64
  {
    (0xf as bv64) << s
  }

  /** The value v moved into the field starting at bit s ((long) b << s). */
  function Shifted(v: bv64, s: bv64): bv64
    requires s < 64
  {
    v << s
  }

  /** The four bits starting at bit s ((row >> s) & 0xf). */
  function Field(w: bv64, s: bv64): bv64
    requires s < 64
  {
    (w >> s) & 0xf
  }

  /** get(col, row): the digit stored in column c of the row word w. */
  function Nibble(w: bv64, c: nat): (r: int)
    requires c < 9
  {
    Field(w, Offset(c)) as int
  }

  /** set(col, row, b): or the digit b into the (empty) field of column c. */
  function SetNibble(w: bv64, c: nat, b: int): bv64
    requires c < 9 && 0 <= b < 16
  {
    w | Shifted(Bits(b), Offset(c))
  }

  /** clear(col, row): and the row word with the complement of column c's mask. */
  function ClearNibble(w: bv64, c: nat): bv64
    requires c < 9
  {
    w & !Mask(Offset(c))
  }

  /** The nine cells of a row word, column 0 first. */
  function Unpack(w: bv64): (cells: seq<int>)
    ensures |cells| == 9
    ensures forall c :: 0 <= c < 9 ==> cells[c] == Nibble(w, c)
  {
    seq(9, c requires 0 <= c < 9 => Nibble(w, c))
  }

  /** Offsets are the multiples of four below 36. */
  lemma OffsetBound(c: nat)
    requires c < 9
    ensures Offset(c) % 4 == 0 && Offset(c) < 36
  {
  }

  /** The table holds col * 4, and distinct columns have distinct offsets. */
  lemma OffsetFacts(c: nat, c2: nat)
    requires c < 9 && c2 < 9
    ensures Offset(c) as int == 4 * c
    ensures Offset(c) == Offset(c2) <==> c == c2
  {
  }

  /** A digit below 16 survives the trip into a 64-bit word and back. */
  lemma DigitBits(b: int)
    requires 0 <= b < 16
    ensures Bits(b) < 16 && Bits(b) as int == b
  {
  }

  /** A field read as an integer is zero only when its bits are. */
  lemma FieldZero(v: bv64)
    requires v as int == 0
    ensures v == 0
  {
  }

  /** Masking out the field at s zeroes it. */
  lemma FieldOfClearSame(w: bv64, s: bv64)
    requires s < 36
    ensures Field(w & !Mask(s), s) as int == 0
  {
  }

  /** Masking out the field at s keeps every other field. */
  lemma FieldOfClearOther(w: bv64, s: bv64, s2: bv64)
    requires s % 4 == 0 && s < 36 && s2 % 4 == 0 && s2 < 36 && s != s2
    ensures Field(w & !Mask(s), s2) == Field(w, s2)
  {
  }

  /** Or-ing a value below 16 into an empty field at s puts it there. */
  lemma FieldOfSetSame(w: bv64, v: bv64, s: bv64)
    requires s < 36 && v < 16 && Field(w, s) == 0
    ensures Field(w | Shifted(v, s), s) == v
  {
  }

  /** Or-ing a value below 16 into the field at s keeps every other field. */
  lemma FieldOfSetOther(w: bv64, v: bv64, s: bv64, s2: bv64)
    requires s % 4 == 0 && s < 36 && s2 % 4 == 0 && s2 < 36 && s != s2 && v < 16
    ensures Field(w | Shifted(v, s), s2) == Field(w, s2)
  {
  }

  /** Masking out a field that was just or-ed into an empty field gives back the original word. */
  lemma ClearOfSet(w: bv64, v: bv64, s: bv64)
    requires s < 36 && v < 16 && Field(w, s) == 0
    ensures (w | Shifted(v, s)) & !Mask(s) == w
  {
  }

  /** get after set: the written column reads b. */
  lemma NibbleOfSetSame(w: bv64, c: nat, b: int)
    requires c < 9 && 0 <= b < 16 && Nibble(w, c) == 0
    ensures Nibble(SetNibble(w, c, b), c) == b
  {
    OffsetBound(c);
    FieldZero(Field(w, Offset(c)));
    DigitBits(b);
    FieldOfSetSame(w, Bits(b), Offset(c));
  }

  /** get after set: every other column is unchanged. */
  lemma NibbleOfSetOther(w: bv64, c: nat, b: int, c2: nat)
    requires c < 9 && c2 < 9 && c != c2 && 0 <= b < 16
    ensures Nibble(SetNibble(w, c, b), c2) == Nibble(w, c2)
  {
    OffsetBound(c);
    OffsetBound(c2);
    OffsetFacts(c, c2);
    DigitBits(b);
    FieldOfSetOther(w, Bits(b), Offset(c), Offset(c2));
  }

  /** get after clear: the cleared column reads 0. */
  lemma NibbleOfClearSame(w: bv64, c: nat)
    requires c < 9
    ensures Nibble(ClearNibble(w, c), c) == 0
  {
    OffsetBound(c);
    FieldOfClearSame(w, Offset(c));
  }

  /** get after clear: every other column is unchanged. */
  lemma NibbleOfClearOther(w: bv64, c: nat, c2: nat)
    requires c < 9 && c2 < 9 && c != c2
    ensures Nibble(ClearNibble(w, c), c2) == Nibble(w, c2)
  {
    OffsetBound(c);
    OffsetBound(c2);
    OffsetFacts(c, c2);
    FieldOfClearOther(w, Offset(c), Offset(c2));
  }

  /** clear undoes set exactly, down to the bits of the word. */
  lemma ClearUndoesSet(w: bv64, c: nat, b: int)
    requires c < 9 && 0 <= b < 16 && Nibble(w, c) == 0
    ensures ClearNibble(SetNibble(w, c, b), c) == w
  {
    OffsetBound(c);
    DigitBits(b);
    FieldZero(Field(w, Offset(c)));
    ClearOfSet(w, Bits(b), Offset(c));
  }

  /** Unpacked view of set and clear: one entry of the row changes. */
  lemma UnpackSet(w: bv64, c: nat, b: int)
    requires c < 9 && 0 <= b < 16 && Nibble(w, c) == 0
    ensures Unpack(SetNibble(w, c, b)) == Unpack(w)[c := b]
  {
    NibbleOfSetSame(w, c, b);
    forall c2 | 0 <= c2 < 9 && c2 != c
      ensures Unpack(SetNibble(w, c, b))[c2] == Unpack(w)[c2]
    {
      NibbleOfSetOther(w, c, b, c2);
    }
  }

  lemma UnpackClear(w: bv64, c: nat)
    requires c < 9
    ensures Unpack(ClearNibble(w, c)) == Unpack(w)[c := 0]
  {
    NibbleOfClearSame(w, c);
    forall c2 | 0 <= c2 < 9 && c2 != c
      ensures Unpack(ClearNibble(w, c))[c2] == Unpack(w)[c2]
    {
      NibbleOfClearOther(w, c, c2);
    }
  }

  /** Every field of the all-zero word reads 0. */
  lemma UnpackZero()
    ensures Unpack(0) == [0, 0, 0, 0, 0, 0, 0, 0, 0]
  {
    forall c | 0 <= c < 9 ensures Nibble(0, c) == 0 {
      NibbleOfClearSame(0, c);
    }
  }
}
