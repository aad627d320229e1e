/*
 * A concrete case of the column off-by-one of setBitmapEntry
 * (greenfoot/src/greenfoot/importer/scratch/ScratchImage.java, line 167):
 * decoding a one-pixel image as written.
 */
module ScratchImageCase {
  import opened ScratchImage
  import opened Strings

  /**
   * A 1 x 1 image of depth 32 whose bits are the length field 1 and one op-2
   * code for one word 7: as written the pixel stays 0, since the word's only
   * pixel goes to column 1.  (Corrected, column 0 receives it: see
   * ScratchImage.EntryFixedCells.)
   */
  lemma OnePixelLost()
    ensures Decoded(Form(1, 1, 32, None), [1, 6, 0, 0, 0, 7], false) == Some([0])
  {
    var f := Form(1, 1, 32, None);
    var bits: seq<Byte> := [1, 6, 0, 0, 0, 7];
    assert Blank(f) == [0];
    assert DecodeLen(bits, 0) == (1, 1);
    assert DecodeLen(bits, 1) == (6, 2);
    assert Word(bits, 2, 4) == 7 by {
      WordBigEndian(bits, 2);
    }
    OneWordLost(f, bits, 6, Cursor([0], 2, 0));
    assert DecodeLen(bits, 6) == (-1, 6);
  }

  /** The op-2 code of OnePixelLost sets its word and leaves the pixel 0. */
  lemma OneWordLost(f: Form, bits: seq<Byte>, rawN: int, st: Cursor)
    requires f.w == 1 && f.h == 1 && f.d == 32 && f.palette.None?
    requires |bits| == 6 && Word(bits, 2, 4) == 7 && st.img == [0] && st.p == 2 && st.bitmapPos == 0
    requires rawN / 4 == 1 && rawN % 4 == 2
    ensures Code(f, bits, rawN, st, false) == Some(Cursor(st.img, 6, 1))
  {
    assert PixelX(f, 0, 0, false) == 1;
    assert EntryLoop(f, st.img, 0, 7, 0, false) == EntryLoop(f, st.img, 0, 7, 1, false);
    assert Fill(f, st.img, 0, 1, 7, false) == Some(st.img);
    CodeOps(f, bits, rawN, st, false);
    CodeAdvances(f, bits, rawN, st, false);
    WordBigEndian(bits, 2);
  }
}
