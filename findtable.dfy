/** The free findTable of findtable.cpp, the table search the table extractor uses. */
module FindTableTool {
  import opened Util
  import opened Rom

  /** findTable (findtable.cpp:12-35): the offset of the file table, cast to 32 bits.
      The search is the one N64ROM::findTable makes; where the C code exits or steps past
      the end of the image, the model returns the error. */
  method FindTable(image: seq<byte>) returns (r: Result<u32, RomError>)
    ensures match FindTableSpec(image)
      case Ok(p) => r == Ok(p % 0x1_0000_0000)
      case Err(e) => r == Err(e)
  {
    var it := Search(image, 0, MARKER);
    if it == |image| {
      return Err(TableNotFound);
    }
    if |image| - it < 32 {
      return Err(SearchPastEnd);
    }
    it := it + 32;
    ghost var from := it;
    var finalPosition := |image|;
    var again := true;
    // do { ... } while (final_position < end): a pass that finds the second marker
    // breaks out, and one that does not leaves final_position at the end
    while again
      invariant again ==> it == from
      invariant !again ==> finalPosition == Search(image, from, MARKER2) == |image|
      decreases again
    {
      finalPosition := Search(image, it, MARKER2);
      if finalPosition != |image| {
        break;
      }
      it := it + 16;
      again := finalPosition < |image|;
    }
    return Ok((finalPosition - 4) % 0x1_0000_0000);
  }
}
