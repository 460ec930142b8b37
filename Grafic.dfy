/** vGraficTask: print the average and the window size, and scroll a two-row bar graph
    of the averages across the 64-column display, one column per average. */
module Grafic {
  import opened Common
  import opened Text

  /** Bytes of the image: pixel[0..64) is the upper row of 8-pixel cells, pixel[64..128)
      the lower row; in each byte the most significant bit is the lowest pixel. */
  const ImageSize: nat := 128
  /** The newest column of the upper row. */
  const TopCell: nat := 63
  /** The newest column of the lower row. */
  const BottomCell: nat := 127

  /** value = (uint8_t)avg_rcv / 8: the low byte of the average, divided by 8. */
  function BarLevel(avg: nat): (level: nat)
    ensures level <= 31
    ensures avg < 256 ==> level * 8 <= avg < level * 8 + 8
  {
    (avg % 256) / 8
  }

  /** The newest column: its upper-row byte (pixel[63]) and lower-row byte (pixel[127]). */
  datatype Column = Column(top: bv8, bottom: bv8)

  /** The two bytes the task stores for a level. Below 8 only the lower row is lit, from
      the 9-bit mask shifted right and inverted; from 8 on the lower row is full and the
      upper row is 0xFF shifted left by 16 - level. Every result is truncated to a byte
      as the unsigned char store does. */
  function EncodeBar(level: nat): (c: Column)
    requires level <= 16
    ensures level < 8 ==> c.top == 0 && c.bottom & 1 == 0
    ensures level >= 8 ==> c.bottom == 0xFF && c.top & 0x80 == (if level == 8 then 0 else 0x80)
  {
    if level < 8 then
      Column(0, ((!((0x1FF as bv32) >> level)) & 0xFF) as bv8)
    else
      Column((((0xFF as bv32) << (16 - level)) & 0xFF) as bv8, 0xFF)
  }

  /** Reference definition: the k most significant bits of a byte set, built one bit at
      a time from the top. */
  function HighMask(k: nat): bv8
    requires k <= 8
  {
    if k == 0 then 0 else (HighMask(k - 1) >> 1) | 0x80
  }

  /** Bit i of b, as a number. */
  function Bit(b: bv8, i: nat): nat
    requires i < 8
  {
    if (b >> i) & 1 == 1 then 1 else 0
  }

  /** The number of set bits among the lowest i bits of b. */
  function BitsBelow(b: bv8, i: nat): nat
    requires i <= 8
  {
    if i == 0 then 0 else BitsBelow(b, i - 1) + Bit(b, i - 1)
  }

  /** The number of pixels a byte lights. */
  function PopCount(b: bv8): nat
  {
    BitsBelow(b, 8)
  }

  /** The number of pixels a column lights. */
  function Lit(c: Column): nat
  {
    PopCount(c.top) + PopCount(c.bottom)
  }

  /** HighMask(k) sets exactly the bits from 8 - k up: the lit pixels form one
      contiguous run from the bottom of the cell. */
  lemma {:induction false} HighMaskBits(k: nat, i: nat)
    requires k <= 8 && i < 8
    ensures Bit(HighMask(k), i) == 1 <==> i >= 8 - k
    decreases k
  {
    if k > 0 {
      var x := HighMask(k - 1);
      if i < 7 {
        HighMaskBits(k - 1, i + 1);
        assert (((x >> 1) | 0x80) >> i) & 1 == (x >> (i + 1)) & 1;
      } else {
        assert (((x >> 1) | 0x80) >> 7) & 1 == 1;
      }
    }
  }

  lemma {:induction false} BitsBelowHighMask(k: nat, i: nat)
    requires k <= 8 && i <= 8
    ensures BitsBelow(HighMask(k), i) == if i <= 8 - k then 0 else i - (8 - k)
    decreases i
  {
    if i > 0 {
      BitsBelowHighMask(k, i - 1);
      HighMaskBits(k, i - 1);
    }
  }

  /** HighMask(k) lights k pixels. */
  lemma PopCountHighMask(k: nat)
    requires k <= 8
    ensures PopCount(HighMask(k)) == k
  {
    BitsBelowHighMask(k, 8);
  }

  /** The bytes stored for each level, in terms of the reference masks: below 8 the lower
      cell has level - 1 bits from the bottom (none for level 0) and the upper cell is
      dark; from 8 on the lower cell is full and the upper cell has level - 8 bits. */
  lemma EncodeBarShape(level: nat)
    requires level <= 16
    ensures level < 8 ==> EncodeBar(level) == Column(0, HighMask(if level == 0 then 0 else level - 1))
    ensures level >= 8 ==> EncodeBar(level) == Column(HighMask(level - 8), 0xFF)
  {
    if level == 0 {
    } else if level == 1 {
    } else if level == 2 {
    } else if level == 3 {
    } else if level == 4 {
    } else if level == 5 {
    } else if level == 6 {
    } else if level == 7 {
    } else if level == 8 {
    } else if level == 9 {
    } else if level == 10 {
    } else if level == 11 {
    } else if level == 12 {
    } else if level == 13 {
    } else if level == 14 {
    } else if level == 15 {
    } else {
      assert HighMask(8) == 0xFF;
    }
  }

  /** How many pixels each level lights: none for 0 and 1, level - 1 below 8, level from
      8 on. Level 8 is the first to fill the lower row; 16 fills the column. */
  lemma LitPixels(level: nat)
    requires level <= 16
    ensures Lit(EncodeBar(level)) == if level <= 1 then 0 else if level < 8 then level - 1 else level
  {
    EncodeBarShape(level);
    if level < 8 {
      PopCountHighMask(0);
      PopCountHighMask(if level == 0 then 0 else level - 1);
    } else {
      PopCountHighMask(level - 8);
      PopCountHighMask(8);
    }
  }

  /** A higher level lights every pixel a lower level lights: the bar only grows. */
  lemma EncodeBarMonotone(low: nat, high: nat)
    requires low <= high <= 16
    ensures EncodeBar(low).top & EncodeBar(high).top == EncodeBar(low).top
    ensures EncodeBar(low).bottom & EncodeBar(high).bottom == EncodeBar(low).bottom
  {
  }

  /** The number of lit pixels never falls as the level rises. */
  lemma LitMonotone(low: nat, high: nat)
    requires low <= high <= 16
    ensures Lit(EncodeBar(low)) <= Lit(EncodeBar(high))
  {
    LitPixels(low);
    LitPixels(high);
  }

  /** The filter's averages never exceed 127, so the level stays at or below 15; the
      largest average lights 15 of the column's 16 pixels. */
  lemma FilterRangeLevels(avg: nat)
    requires avg <= 127
    ensures BarLevel(avg) <= 15
    ensures avg >= 120 ==> BarLevel(avg) == 15 && Lit(EncodeBar(BarLevel(avg))) == 15
  {
    if avg >= 120 {
      LitPixels(15);
    }
  }

  /** The image after one refresh: each row moves one cell towards index 0, and the new
      column's two bytes fill the last two cells of each row (the store into cell 63 or
      127 happens before the shift, which then copies it one cell down). */
  function Scrolled(p: seq<bv8>, c: Column): (r: seq<bv8>)
    requires |p| == ImageSize
    ensures |r| == ImageSize
    ensures forall i :: 0 <= i < TopCell - 1 ==> r[i] == p[i + 1]
    ensures forall i :: TopCell + 1 <= i < BottomCell - 1 ==> r[i] == p[i + 1]
    ensures r[TopCell - 1] == r[TopCell] == c.top
    ensures r[BottomCell - 1] == r[BottomCell] == c.bottom
  {
    p[1..TopCell] + [c.top, c.top] + p[TopCell + 2..BottomCell] + [c.bottom, c.bottom]
  }

  /** The image after a sequence of refreshes, oldest column first. */
  function Display(p: seq<bv8>, cs: seq<Column>): (r: seq<bv8>)
    requires |p| == ImageSize
    ensures |r| == ImageSize
    decreases |cs|
  {
    if cs == [] then p else Scrolled(Display(p, cs[..|cs| - 1]), cs[|cs| - 1])
  }

  /** After any sequence of refreshes, cell 62 - j of each row holds the column stored
      j refreshes ago, for the last 63 refreshes: the graph reads oldest on the left,
      newest on the right. */
  lemma {:induction false} RecentColumns(p: seq<bv8>, cs: seq<Column>, j: nat)
    requires |p| == ImageSize && j < |cs| && j <= TopCell - 1
    ensures Display(p, cs)[TopCell - 1 - j] == cs[|cs| - 1 - j].top
    ensures Display(p, cs)[BottomCell - 1 - j] == cs[|cs| - 1 - j].bottom
    decreases j
  {
    if j > 0 {
      var prefix := cs[..|cs| - 1];
      RecentColumns(p, prefix, j - 1);
      assert prefix[|prefix| - 1 - (j - 1)] == cs[|cs| - 1 - j];
    }
  }

  /** The task's state: the image bytes and itoa's buffer, which both of its calls share. */
  class GraficTask {
    var pixel: array<bv8>
    var digits: DigitBuffer

    ghost predicate Valid()
      reads this, pixel, digits, digits.buf
    {
      pixel.Length == ImageSize && digits.Valid()
    }

    constructor (d: DigitBuffer)
      requires d.Valid()
      ensures Valid() && fresh(pixel) && digits == d
      ensures pixel[..] == seq(ImageSize, _ => 0)
    {
      pixel := new bv8[ImageSize](_ => 0);
      digits := d;
    }

    /** One iteration of the task's loop after an average has arrived: convert the
        average and then N with itoa, store the new column and scroll. Returns where
        the two texts start in itoa's buffer; the average's text is read from there
        only after the second call has overwritten it. */
    method Refresh(avg: nat, n: WindowSize) returns (avgStart: nat, nStart: nat)
      requires Valid() && avg < 0x8000_0000 && BarLevel(avg) <= 16
      modifies pixel, digits.buf
      ensures Valid()
      ensures avgStart == ItoaSize - 1 - |ItoaText(avg)|
      ensures nStart == ItoaSize - 1 - |ItoaText(n)|
      ensures digits.buf[..] == Written(Written(old(digits.buf[..]), ItoaText(avg)), ItoaText(n))
      ensures pixel[..] == Scrolled(old(pixel[..]), EncodeBar(BarLevel(avg)))
    {
      ghost var before := digits.buf[..];
      avgStart := digits.Itoa(avg);
      nStart := digits.Itoa(n);
      var value := BarLevel(avg);
      ghost var p := pixel[..];
      if value < 8 {
        pixel[BottomCell] := ((!((0x1FF as bv32) >> value)) & 0xFF) as bv8;
        pixel[TopCell] := 0;
      } else {
        pixel[TopCell] := (((0xFF as bv32) << (16 - value)) & 0xFF) as bv8;
        pixel[BottomCell] := 0xFF;
      }
      ShiftRows(pixel);
      assert pixel[..] == Scrolled(p, EncodeBar(value));
    }
  }

  /** The task's scroll loop: pixel[i] = pixel[i + 1] for every i except 63 and 127. */
  method ShiftRows(pixel: array<bv8>)
    requires pixel.Length == ImageSize
    modifies pixel
    ensures forall i :: 0 <= i < ImageSize && i != TopCell && i != BottomCell ==>
      pixel[i] == old(pixel[i + 1])
    ensures pixel[TopCell] == old(pixel[TopCell]) && pixel[BottomCell] == old(pixel[BottomCell])
  {
    for i := 0 to ImageSize
      invariant forall k :: 0 <= k < i && k != TopCell && k != BottomCell ==>
        pixel[k] == old(pixel[k + 1])
      invariant forall k :: i <= k < ImageSize ==> pixel[k] == old(pixel[k])
      invariant i > TopCell ==> pixel[TopCell] == old(pixel[TopCell])
      invariant i > BottomCell ==> pixel[BottomCell] == old(pixel[BottomCell])
    {
      if i != TopCell && i != BottomCell {
        pixel[i] := pixel[i + 1];
      }
    }
  }
}
