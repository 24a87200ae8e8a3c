/** `PNGColorMode` codes and the reader's and writer's identical `CHANNELS` table: the
    number of bytes a pixel occupies in a scanline for each colour mode. */
module ColorModes {
  import opened Common

  const GRAYSCALE: byte := 0
  const TRUECOLOR: byte := 2
  const INDEXED: byte := 3
  const GRAYSCALE_WITH_ALPHA: byte := 4
  const TRUECOLOR_WITH_ALPHA: byte := 6

  /** `CHANNELS[mode]`: a mode missing from the table throws `KeyNotFoundException`. */
  function Channels(mode: byte): (r: Result<nat>)
    ensures r.Ok? <==> mode in {GRAYSCALE, TRUECOLOR, INDEXED, GRAYSCALE_WITH_ALPHA, TRUECOLOR_WITH_ALPHA}
    ensures r.Err? ==> r.error == KeyNotFound
    ensures r.Ok? ==> 1 <= r.value <= 4
    ensures r.Ok? ==> (r.value == 1 <==> mode == GRAYSCALE || mode == INDEXED)
  {
    if mode == GRAYSCALE then Ok(1)
    else if mode == GRAYSCALE_WITH_ALPHA then Ok(2)
    else if mode == TRUECOLOR then Ok(3)
    else if mode == TRUECOLOR_WITH_ALPHA then Ok(4)
    else if mode == INDEXED then Ok(1)
    else Err(KeyNotFound)
  }
}
