/** The colour codec of src/game/color.h: an R8G8B8 triple packed into one 32-bit board cell
    as 0x00RRGGBB. The value 0 marks an empty cell, so pure black is the one colour that cannot
    be stored. */
module Colors {

  /** ColorR8G8B8: three 8-bit channels. */
  datatype Rgb = Rgb(r: bv8, g: bv8, b: bv8)

  predicate IsBlack(c: Rgb) { c.r == 0 && c.g == 0 && c.b == 0 }

  /** PackColor: red in bits 16-23, green in bits 8-15, blue in bits 0-7; the top byte is zero. */
  function PackColor(c: Rgb): (v: bv32)
    ensures v < 0x100_0000
    ensures v == 0 <==> IsBlack(c)
  {
    (c.r as bv32 << 16) | (c.g as bv32 << 8) | c.b as bv32
  }

  /** The integer part of FromPackedColorToColor: mask and shift each channel back out. */
  function Channels(v: bv32): Rgb {
    Rgb(((v & 0xff0000) >> 16) as bv8, ((v & 0xff00) >> 8) as bv8, (v & 0xff) as bv8)
  }

  lemma ChannelsOfPack(c: Rgb)
    ensures Channels(PackColor(c)) == c
  {
  }

  lemma PackInjective(c: Rgb, d: Rgb)
    ensures PackColor(c) == PackColor(d) ==> c == d
  {
    ChannelsOfPack(c);
    ChannelsOfPack(d);
  }
}
