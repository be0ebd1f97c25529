/** From the linker's sections to the program the shell starts (build_flat in src/home/tcc.c, shell_run_program in src/kernel/shell.c). */
module FlatImage {
  import opened Bytes
  import opened ProgramStart
  import opened SectionLayout

  /** The end of build_flat: the sections linked at the flat base and written behind a header; nothing when that fails. */
  method BuildFlat(linker: Linker, memory: array<byte>, entry: u32) returns (file: seq<byte>, size: int)
    requires AllOk(linker.sections) && Span(linker.sections, FLAT_BASE) <= memory.Length
    modifies linker, memory
    ensures AllOk(linker.sections) && size == ImageSize(old(linker.sections))
    ensures file == [] <==> !(0 <= size <= FLAT_MAX - 12)
    ensures file != [] ==>
              && size <= memory.Length && file == FlatFile(memory[..size], entry)
              && StandsIn(old(linker.sections), linker.sections, memory[..size], FLAT_BASE)
  {
    hide StandsIn, PageUp, Pass, Le32;
    SpanIs(linker.sections, FLAT_BASE);
    size := linker.RelocateAt(FLAT_BASE, memory);
    if size < 0 {
      return [], size;
    }
    file := WriteFlat(memory[..size], entry);
  }

  /**
   * Compiling to a flat binary and running it: the shell accepts the file exactly when linking worked, the image fits a writable
   * file and the entry lies inside it, and then the image it loads at the flat base holds every section at its address.
   */
  method BuildAndLoad(linker: Linker, memory: array<byte>, entry: u32) returns (r: Loaded)
    requires AllOk(linker.sections) && Span(linker.sections, FLAT_BASE) <= memory.Length
    modifies linker, memory
    ensures AllOk(linker.sections)
    ensures r.Flat? <==> 0 <= ImageSize(old(linker.sections)) <= FLAT_MAX - 12 && entry < ImageSize(old(linker.sections))
    ensures r.Flat? ==> StandsIn(old(linker.sections), linker.sections, r.image, FLAT_BASE) && r.entry == FLAT_BASE + entry
  {
    hide StandsIn, Span, ImageSize, FlatFile;
    var file, size := BuildFlat(linker, memory, entry);
    if file == [] {
      r := LoadFlat([]);
    } else {
      r := FlatRoundTrip(memory[..size], entry, file);
    }
  }
}
