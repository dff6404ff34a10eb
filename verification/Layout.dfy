// The monitor's check that every byte its scan reads lies inside the mapped framebuffer.
module Layout {
  import opened Words

  // Fields of fb_var_screeninfo and fb_fix_screeninfo; all are 32-bit.
  datatype Geometry = Geometry(xres: Word, yres: Word, xoffset: Word, yoffset: Word, lineLength: Word, smemLen: Word)

  datatype Refusal = BadSize | PastStride | PastMapping
  datatype Verdict = Accepted | Refused(why: Refusal)

  // 64-bit arithmetic, written out: only the product can wrap.
  function LayoutError(g: Geometry, pixelOffset: Word): Verdict {
    var rowEnd := (g.xoffset + g.xres) * 4;
    if g.xres == 0 || g.yres == 0 || g.xres > 65535 || g.yres > 65535 then Refused(BadSize)
    else if rowEnd > g.lineLength then Refused(PastStride)
    else
      var lastByte := (pixelOffset + (g.yoffset + g.yres - 1) * g.lineLength + rowEnd) % M64;
      if lastByte > g.smemLen then Refused(PastMapping) else Accepted
  }

  // The address of byte j of the y-th scanned row.
  function Address(g: Geometry, pixelOffset: Word, y: nat, j: nat): nat {
    pixelOffset + (g.yoffset + y) * g.lineLength + g.xoffset * 4 + j
  }

  ghost predicate ReadsInside(g: Geometry, pixelOffset: Word) {
    forall y: nat, j: nat | y < g.yres && j < g.xres * 4 :: Address(g, pixelOffset, y, j) < g.smemLen
  }

  // The last row read and the end of its visible part, without wrap-around.
  function End(g: Geometry, pixelOffset: Word): int {
    pixelOffset + (g.yoffset + g.yres - 1) * g.lineLength + (g.xoffset + g.xres) * 4
  }

  lemma ReadsInsideIffEnd(g: Geometry, pixelOffset: Word)
    requires g.xres > 0 && g.yres > 0
    ensures ReadsInside(g, pixelOffset) <==> End(g, pixelOffset) <= g.smemLen
  {
    if ReadsInside(g, pixelOffset) {
      assert Address(g, pixelOffset, g.yres - 1, g.xres * 4 - 1) == End(g, pixelOffset) - 1;
    }
    if End(g, pixelOffset) <= g.smemLen {
      forall y: nat, j: nat | y < g.yres && j < g.xres * 4 ensures Address(g, pixelOffset, y, j) < g.smemLen {
        MulMonotone(g.yoffset + y, g.yoffset + g.yres - 1, g.lineLength);
      }
    }
  }

  lemma MulMonotone(a: int, b: int, c: nat)
    requires a <= b
    ensures a * c <= b * c
  { }

  // An accepted layout is safe exactly when the rows end within 32 bits: beyond that the 64-bit
  // product wraps, and a last row far outside the mapping looks as if it were inside.
  lemma AcceptedIsSafeIff(g: Geometry, pixelOffset: Word)
    requires pixelOffset <= 4096
    requires LayoutError(g, pixelOffset) == Accepted
    ensures ReadsInside(g, pixelOffset) <==> g.yoffset + g.yres <= M32
  {
    ReadsInsideIffEnd(g, pixelOffset);
    var a := g.yoffset + g.yres - 1;
    if a < M32 {
      EndFits(g, pixelOffset);
    } else {
      MulMonotone(M32, a, g.lineLength);
      assert M32 * g.lineLength >= M32 * 4;
    }
  }

  lemma EndFits(g: Geometry, pixelOffset: Word)
    requires pixelOffset <= 4096 && g.yres > 0 && g.yoffset + g.yres <= M32 && (g.xoffset + g.xres) * 4 <= g.lineLength
    ensures 0 <= End(g, pixelOffset) < M64
  {
    MulMonotone(g.yoffset + g.yres - 1, M32 - 1, g.lineLength);
    assert (M32 - 1) * g.lineLength <= (M32 - 1) * (M32 - 1);
  }

  // Below the wrap the check refuses nothing that would have been safe.
  lemma RefusesOnlyUnsafe(g: Geometry, pixelOffset: Word)
    requires pixelOffset <= 4096 && g.yoffset + g.yres <= M32
    requires LayoutError(g, pixelOffset) == Refused(PastMapping)
    ensures !ReadsInside(g, pixelOffset)
  {
    ReadsInsideIffEnd(g, pixelOffset);
    EndFits(g, pixelOffset);
  }

  // A layout the check accepts although its last row lies past 2^64.
  lemma WrapAccepted()
    ensures var g := Geometry(1, 5, 0, 0xffff_ffff, 0xffff_fffe, 0xffff_ffff);
      LayoutError(g, 0) == Accepted && !ReadsInside(g, 0)
  {
    var g := Geometry(1, 5, 0, 0xffff_ffff, 0xffff_fffe, 0xffff_ffff);
    ReadsInsideIffEnd(g, 0);
  }

  // Below the wrap the check accepts exactly the layouts with both sizes in 1..65535, each row inside the
  // stride and every read inside the mapping.
  lemma AcceptedIff(g: Geometry, pixelOffset: Word)
    requires pixelOffset <= 4096 && g.yoffset + g.yres <= M32
    ensures LayoutError(g, pixelOffset) == Accepted <==>
      && 0 < g.xres < 65536 && 0 < g.yres < 65536
      && (g.xoffset + g.xres) * 4 <= g.lineLength
      && ReadsInside(g, pixelOffset)
  {
    if 0 < g.xres < 65536 && 0 < g.yres < 65536 && (g.xoffset + g.xres) * 4 <= g.lineLength {
      ReadsInsideIffEnd(g, pixelOffset);
      EndFits(g, pixelOffset);
    }
  }
}
