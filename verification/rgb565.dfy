/**
 * Packing of one 8-bit-per-channel pixel into a 16-bit RGB565 value
 * (files/plugins/Installer.py line 143): red keeps its top 5 bits, green
 * its top 6 bits and blue its top 5 bits, laid out as rrrrrggggggbbbbb.
 */
module Rgb565 {
  import opened Bits

  /** A colour channel as the bitmap reports it: an integer in 0..255. */
  newtype byte = x: int | 0 <= x < 256

  /** One pixel of the snapshot; its alpha channel is never read and is not modelled. */
  datatype Pixel = Pixel(red: byte, green: byte, blue: byte)

  /**
   * The packed value: red's top 5 bits times 2^11, green's top 6 bits
   * times 2^5 and blue's top 5 bits, which stays below 2^16.
   * `PackMatchesShifts` shows it is what the source's shift-and-or
   * expression evaluates to.
   */
  function Pack(p: Pixel): (v: nat)
    ensures v < 0x1_0000
  {
    (p.red as int / 8) * 2048 + (p.green as int / 4) * 32 + p.blue as int / 8
  }

  /**
   * `(r >> 3 << 11) | (g >> 2 << 5) | (b >> 3)`, evaluated with Python's
   * unbounded integers, is `Pack`.
   */
  lemma PackMatchesShifts(p: Pixel)
    ensures Or(Or(Shl(Shr(p.red as nat, 3), 11), Shl(Shr(p.green as nat, 2), 5)), Shr(p.blue as nat, 3)) == Pack(p)
  {
    PackIsSum(p.red as nat, p.green as nat, p.blue as nat);
  }

  /** The or-ed fields of `Pack` occupy disjoint bit ranges, so `|` adds them. */
  lemma PackIsSum(r: nat, g: nat, b: nat)
    requires r < 256 && g < 256 && b < 256
    ensures Or(Or(Shl(Shr(r, 3), 11), Shl(Shr(g, 2), 5)), Shr(b, 3)) == (r / 8) * 2048 + (g / 4) * 32 + b / 8
  {
    ShrChannels(r, g, b);
    OrOfFields(r / 8, g / 4, b / 8);
  }

  lemma ShrChannels(r: nat, g: nat, b: nat)
    ensures Shr(r, 3) == r / 8 && Shr(g, 2) == g / 4 && Shr(b, 3) == b / 8
  {
    Pow2Table();
    ShrIsDiv(r, 3);
    ShrIsDiv(g, 2);
    ShrIsDiv(b, 3);
  }

  /** Fields placed at bits 11, 5 and 0 that fit their widths: or-ing them is adding them. */
  lemma OrOfFields(r5: nat, g6: nat, b5: nat)
    requires g6 < 64 && b5 < 32
    ensures Or(Or(Shl(r5, 11), Shl(g6, 5)), b5) == r5 * 2048 + g6 * 32 + b5
  {
    var high := r5 * 64 + g6;
    assert Or(Shl(r5, 11), Shl(g6, 5)) == Shl(high, 5) by {
      ShiftedFieldsJoin(r5, g6);
    }
    assert Or(Shl(high, 5), b5) == Shl(high, 5) + b5 by {
      Pow2Table();
      OrDisjoint(high, b5, 5);
    }
    assert Shl(high, 5) == high * 32 by {
      Pow2Table();
      ShlIsMul(high, 5);
    }
  }

  lemma ShiftedFieldsJoin(r5: nat, g6: nat)
    requires g6 < 64
    ensures Or(Shl(r5, 11), Shl(g6, 5)) == Shl(r5 * 64 + g6, 5)
  {
    Pow2Table();
    assert Shl(r5, 11) == r5 * 2048 by {
      ShlIsMul(r5, 11);
    }
    assert Shl(g6, 5) == g6 * 32 by {
      ShlIsMul(g6, 5);
    }
    assert Shl(r5 * 64 + g6, 5) == (r5 * 64 + g6) * 32 by {
      ShlIsMul(r5 * 64 + g6, 5);
    }
    OrDisjoint(r5, Shl(g6, 5), 11);
  }

  /**
   * Each channel's kept bits can be read back from its own field of the
   * packed value (`% 64` and `% 32` are the masks `& 63` and `& 31`), and
   * nothing is set at bit 16 or above.
   */
  lemma PackFields(p: Pixel)
    ensures Shr(Pack(p), 11) == Shr(p.red as nat, 3)
    ensures Shr(Pack(p), 5) % 64 == Shr(p.green as nat, 2)
    ensures Pack(p) % 32 == Shr(p.blue as nat, 3)
    ensures Shr(Pack(p), 16) == 0
  {
    var v := Pack(p);
    var r5, g6, b5 := p.red as int / 8, p.green as int / 4, p.blue as int / 8;
    assert Shr(p.red as nat, 3) == r5 && Shr(p.green as nat, 2) == g6 && Shr(p.blue as nat, 3) == b5 by {
      Pow2Table();
      ShrIsDiv(p.red as nat, 3);
      ShrIsDiv(p.green as nat, 2);
      ShrIsDiv(p.blue as nat, 3);
    }
    assert Shr(v, 11) == v / 2048 && Shr(v, 5) == v / 32 && Shr(v, 16) == v / 0x1_0000 by {
      Pow2Table();
      ShrIsDiv(v, 11);
      ShrIsDiv(v, 5);
      ShrIsDiv(v, 16);
    }
    DivModOf(v, 2048, r5, g6 * 32 + b5);
    DivModOf(v, 32, r5 * 64 + g6, b5);
    DivModOf(r5 * 64 + g6, 64, r5, g6);
    DivModOf(v, 0x1_0000, 0, v);
  }

  /**
   * Two pixels pack to the same value exactly when they agree on the bits
   * RGB565 keeps: the low 3 bits of red and blue and the low 2 bits of
   * green are discarded, and nothing else is.
   */
  lemma PackEqualIff(p: Pixel, q: Pixel)
    ensures Pack(p) == Pack(q) <==>
      && p.red as int / 8 == q.red as int / 8
      && p.green as int / 4 == q.green as int / 4
      && p.blue as int / 8 == q.blue as int / 8
  {
    if Pack(p) == Pack(q) {
      PackFields(p);
      PackFields(q);
      assert Shr(p.red as nat, 3) == p.red as int / 8 && Shr(q.red as nat, 3) == q.red as int / 8 by {
        Pow2Table();
        ShrIsDiv(p.red as nat, 3);
        ShrIsDiv(q.red as nat, 3);
      }
      assert Shr(p.green as nat, 2) == p.green as int / 4 && Shr(q.green as nat, 2) == q.green as int / 4 by {
        Pow2Table();
        ShrIsDiv(p.green as nat, 2);
        ShrIsDiv(q.green as nat, 2);
      }
      assert Shr(p.blue as nat, 3) == p.blue as int / 8 && Shr(q.blue as nat, 3) == q.blue as int / 8 by {
        Pow2Table();
        ShrIsDiv(p.blue as nat, 3);
        ShrIsDiv(q.blue as nat, 3);
      }
    }
  }

  /** Pure white packs to the all-ones value and pure black to zero. */
  lemma PackExtremes()
    ensures Pack(Pixel(255, 255, 255)) == 0xffff
    ensures Pack(Pixel(0, 0, 0)) == 0
  {
  }
}
