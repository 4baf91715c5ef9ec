/** Runs of pages that are to hold so many bytes: those of `mmap`, and the screen's. */
module Spans {
  import opened MachineWords
  import opened Options
  import opened PageTables

  /** The bytes lie in as many pages as the loops count. */
  ghost predicate Covered(virt: u32, len: u32) {
    forall a: int :: virt <= a < virt + len ==> virt / 4096 <= a / 4096 < virt / 4096 + (len + 4095) / 4096
  }

  /** The offset in the first page leaves room: always if virt is aligned. */
  predicate FitsPages(virt: u32, len: u32) {
    len == 0 || virt % 4096 + len <= 4096 * ((len + 4095) / 4096)
  }

  /** The pages that a loop maps hold all the bytes it was asked for exactly then. */
  lemma SpanCovers(virt: u32, len: u32)
    ensures Covered(virt, len) <==> FitsPages(virt, len)
  {
    var n := (len + 4095) / 4096;
    if len > 0 {
      var last := virt + len - 1;
      assert last / 4096 < virt / 4096 + n <==> virt % 4096 + len <= 4096 * n;
    }
  }

  /** One page asked for from the middle of a page is not held by one page. */
  lemma UnalignedPage()
    ensures !FitsPages(0x800, 0x1000) && !Covered(0x800, 0x1000)
  {
    SpanCovers(0x800, 0x1000);
  }

  // ------------------------------------------------------------ the screen

  /** The page behind those that the framebuffer loops visit. */
  function ScreenEnd(framebuffer: u32, bytes: u32): nat {
    framebuffer / 4096 + (bytes + 4095) / 4096
  }

  /** The pages that they visit. */
  predicate OnScreen(u: page, framebuffer: u32, bytes: u32) {
    framebuffer / 4096 <= u < ScreenEnd(framebuffer, bytes)
  }

  /** The pages that hold bytes of the screen. */
  predicate HoldsScreen(u: page, framebuffer: u32, bytes: u32) {
    bytes > 0 && framebuffer / 4096 <= u <= (framebuffer + bytes - 1) / 4096
  }

  /** The loops visit pages that hold bytes of the screen; if they miss one, it is the next. */
  lemma PagesVisited(u: page, framebuffer: u32, bytes: u32)
    ensures OnScreen(u, framebuffer, bytes) ==> HoldsScreen(u, framebuffer, bytes)
    ensures FitsPages(framebuffer, bytes) && HoldsScreen(u, framebuffer, bytes) ==> OnScreen(u, framebuffer, bytes)
    ensures HoldsScreen(u, framebuffer, bytes) ==> u <= ScreenEnd(framebuffer, bytes)
    ensures !FitsPages(framebuffer, bytes) ==>
      (framebuffer + bytes - 1) / 4096 == ScreenEnd(framebuffer, bytes)
  {
  }

  /** A framebuffer that begins in the middle of a page loses its last page. */
  lemma ScreenPageMissed()
    ensures !FitsPages(0xFD00_0800, 0x1000) && !Covered(0xFD00_0800, 0x1000)
    ensures HoldsScreen(0xF_D001, 0xFD00_0800, 0x1000) && !OnScreen(0xF_D001, 0xFD00_0800, 0x1000)
  {
    SpanCovers(0xFD00_0800, 0x1000);
  }

  /** Every byte of the screen lies where it is expected. */
  ghost predicate Visible(m: Memory, d: frame, framebuffer: u32, bytes: u32, flags: u32)
    requires framebuffer + bytes <= TWO32
  {
    forall a: int :: framebuffer <= a < framebuffer + bytes ==> AtItself(m, d, a / 4096, flags)
  }

  predicate AtItself(m: Memory, d: frame, u: page, flags: u32) {
    Walk(m, d, u) == Some(Entry(u, flags))
  }

  ghost predicate VisiblePages(m: Memory, d: frame, framebuffer: u32, bytes: u32, flags: u32) {
    forall u: page :: HoldsScreen(u, framebuffer, bytes) ==> AtItself(m, d, u, flags)
  }

  lemma VisibleByPage(m: Memory, d: frame, framebuffer: u32, bytes: u32, flags: u32)
    requires framebuffer + bytes <= TWO32
    ensures Visible(m, d, framebuffer, bytes, flags) <==> VisiblePages(m, d, framebuffer, bytes, flags)
  {
    hide AtItself;
    if Visible(m, d, framebuffer, bytes, flags) {
      forall u: page | HoldsScreen(u, framebuffer, bytes)
        ensures AtItself(m, d, u, flags)
      {
        var a: int := Max(framebuffer, 4096 * u);
        assert a / 4096 == u;
      }
    }
    if VisiblePages(m, d, framebuffer, bytes, flags) {
      forall a: int | framebuffer <= a < framebuffer + bytes
        ensures AtItself(m, d, a / 4096, flags)
      {
        assert HoldsScreen(a / 4096, framebuffer, bytes);
      }
    }
  }

  /** No byte of the screen lies in the pages lo..hi. */
  predicate ClearOf(framebuffer: u32, bytes: u32, lo: int, hi: int) {
    bytes == 0 || framebuffer + bytes <= 4096 * lo || 4096 * hi <= framebuffer
  }

  lemma ClearOfPages(framebuffer: u32, bytes: u32, lo: page, hi: page)
    requires lo < hi && framebuffer + bytes <= TWO32
    ensures ClearOf(framebuffer, bytes, lo, hi)
       <==> forall u: page :: HoldsScreen(u, framebuffer, bytes) ==> !(lo <= u < hi)
  {
    if !ClearOf(framebuffer, bytes, lo, hi) {
      var u: page := Max(framebuffer / 4096, lo);
      assert HoldsScreen(u, framebuffer, bytes) && lo <= u < hi;
    }
  }

  /** The pages of the screen among lo..hi lie where they are expected. */
  ghost predicate VisibleWithin(m: Memory, d: frame, framebuffer: u32, bytes: u32, lo: int, hi: int, flags: u32) {
    forall u: page :: HoldsScreen(u, framebuffer, bytes) && lo <= u < hi ==> AtItself(m, d, u, flags)
  }

  /** The screen of a directory in which the first 4 MiB and the visited pages are where they are
      expected, but for a run lo..hi, and a page that was missed outside these is not mapped. */
  lemma VisibleExactly(m: Memory, d: frame, framebuffer: u32, bytes: u32, lo: int, hi: int, flags: u32)
    requires framebuffer + bytes <= 4096 * PT_PAGE && ENTRIES <= lo
    requires forall u: page :: u < ENTRIES ==> AtItself(m, d, u, flags)
    requires forall u: page :: OnScreen(u, framebuffer, bytes) && !(lo <= u < hi) ==> AtItself(m, d, u, flags)
    requires forall u: page :: u == ScreenEnd(framebuffer, bytes) && ENTRIES <= u < PT_PAGE && !(lo <= u < hi) ==>
      Walk(m, d, u) == None
    ensures Visible(m, d, framebuffer, bytes, flags)
       <==> && VisibleWithin(m, d, framebuffer, bytes, lo, hi, flags)
            && (FitsPages(framebuffer, bytes) || framebuffer + bytes <= 4096 * ENTRIES
                || lo <= ScreenEnd(framebuffer, bytes) < hi)
  {
    VisibleByPage(m, d, framebuffer, bytes, flags);
    hide Walk, Visible;
    var end := ScreenEnd(framebuffer, bytes);
    if FitsPages(framebuffer, bytes) || framebuffer + bytes <= 4096 * ENTRIES || lo <= end < hi {
      if VisibleWithin(m, d, framebuffer, bytes, lo, hi, flags) {
        forall u: page | HoldsScreen(u, framebuffer, bytes)
          ensures AtItself(m, d, u, flags)
        {
          PagesVisited(u, framebuffer, bytes);
        }
      }
    } else {
      PagesVisited(framebuffer / 4096, framebuffer, bytes);
      assert HoldsScreen(end, framebuffer, bytes) && !AtItself(m, d, end, flags);
    }
  }
}
