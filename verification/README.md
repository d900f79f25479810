# Verified model of the Lab 5 display and player software and of the Lab 4 key schedule

The project models three programs and proves what they do for all inputs.

* **The software frame buffer of Lab 5.** GIMP image dumps are converted between packed pixel formats
  (`PixelMaps.dfy`, `GimpBmp.dfy`), blitted into a frame of 32-bit words (`DrawGimps.dfy`), and shown by a frame reader
  with two frame buffers (`FrameReader.dfy`), whose copy can be a chain of DMA descriptors (`DmaChain.dfy`). Strings are
  laid out, alpha-blended and drawn glyph by glyph (`Channels.dfy`, `SimpleText.dfy`, `TextLayout.dfy`,
  `TextPictures.dfy`, `PrintedText.dfy`). Images drawn over each other are themselves one image
  (`ImageOverlays.dfy`), and so are the five transport images after any run of clicks (`TransportClicks.dfy`).
  `Memory.dfy` holds the bytes and words of the little-endian CPU, `Raster.dfy` the addressing of pixels,
  `Overlays.dfy` drawing as overlay.
* **The RC4 key schedule of Lab 4** (`KeySchedule.dfy`), for an arbitrary key; the script's 3-byte key is one instance.
* **The two-task song player of Lab 5** (`SongMachine.dfy`, `SongPlay.dfy`, `SongClicks.dfy`, `SongPlayer.dfy`,
  `Desktop.dfy`). Task 1 outranks task 2, so a turn of task 1 is one step that may fall between any two statements of
  task 2.

## How the model is built

Code that changes memory is a method over arrays or object fields, with the loops and pointer walks of the source, and
is proved equal to a specification that says what every byte or word is afterwards, by position and not by iteration:
`PixelMaps.Converted`, `DrawGimps.BlitLayer` and `RowsLayer`, `SimpleText.CellLayer`, `TextLayout.Cells`,
`DmaChain.Copied`, `KeySchedule.Run`, `FrameReader.Step`, `SongMachine.Step`. The theorems are lemmas about these
specifications. What the specifications say is fixed in turn by laws that name none of them: bytes of dumps
(`PixelMaps.ConvertedBytes`), pixels of strings (`PrintedText.StringPicture`), clicks in pixels and frequencies in
numbers (`SongClicks`). Bytes and words are bit-vectors, so shifts, masks and truncating casts are those of the source.
Sizes, addresses and counters are unbounded integers, except for the `short` fields of a bitmap, which are truncated as
in C.

The six `copy_pix_map_*` functions share their nested loops word for word, so the walk is written once and the six loop
bodies are six methods. `AsVidCopyImageToBuffer2` and `AsVidCopyImageToBuffer3` differ in the transparent colour alone
and are one method with an optional colour. Functions of the C library are modelled by their effect: `memcpy`, `memset`,
and `malloc`, whose success is an input and which leaves the contents of its memory open. The statements that task 2
executes for one poll are a list computed from the mouse position (`SongMachine.Program`), which
`SongPlayer.Player.Task2Poll` executes one by one, so that turns of task 1 can fall between any two of them. A drawing
is a map from places to words, and a picture after several drawings is an overlay of their maps; this is what makes
composition, order and repetition of drawings provable.

## Where the code does not do what it might seem to

Each of the first seven is proved with the exact condition under which the expected property does hold, and with one
input on which it does not.

* Converting 24 to 16 bits by way of 32 bits exchanges red and blue (`PixelMaps.DetourAgrees`): a red pixel turns blue
  (`PixelMaps.RedTurnsBlue`).
* A 4-byte dump is shown with red and blue exchanged, although the header calls the format RGBA
  (`DrawGimps.ShownTruly`): a red pixel is shown blue (`DrawGimps.RedShownBlue`).
* An image wider or higher than a `short` leaves bytes of the bitmap as `malloc` found them
  (`GimpBmp.DefinedIffSizesFit`), a row of 32768 pixels for one (`GimpBmp.RowTooWide`).
* Redrawing a transport image leaves a trace of the version underneath at every pixel that is transparent in the new
  version alone and whose old colour was not in the frame before (`ImageOverlays.RedrawForgetsVersion`): a red pixel
  stays under a black one (`ImageOverlays.RedStaysUnderBlack`). Over all clicks, the screen shows the last click alone
  if and only if the two versions of each image are transparent at the same pixels
  (`TransportClicks.ClicksLeaveNoTrace`).
* `DRAW_EraseScreen` shows the colour asked for only if it is a grey (`FrameReader.ErasedToColor`): blue erases to white
  (`FrameReader.BlueErasesToWhite`).
* Playing reads past the end of the song unless the song is a whole number of blocks long, or a block a whole number of
  songs (`SongPlay.PlayStaysInSong`): a song of 1500 samples is left in the second turn (`SongPlay.SongOf1500`). The
  song script of the repository makes 44000 samples for each of 30 seconds, and a song of whole seconds is never left
  (`SongPlay.GeneratedSong`).
* The fit of a blit is inclusive: `w_fit` columns means the first `w_fit + 1`. It draws what the fit asks for only if
  the image ends before the column and row too many, or nothing is asked for (`DrawGimps.FitIsExact`,
  `DrawGimps.ImageFitIsExact`): of two pixels in a row a fit of one draws both (`DrawGimps.FitOfOneDrawsTwo`).
* No song is played exactly once in a period (`SongPlay.NeverExactlyOnce`): a song of at least a block is pushed in
  order, to the end of its last block, and then a block that starts as far into the song as that end lies past the
  song's (`SongPlay.OnePeriod`), which is the first block again if the song is a whole number of blocks long
  (`SongPlay.FirstBlockTwice`).
* `my_memcpy` starts a transfer on a descriptor that was never built when the size is not positive
  (`DmaChain.MyMemcpy`).
* The body of `send_audio_fifo` has ended up in the comment of line 141 of `hello_ucosii.c`; the model follows the body
  written there.

## Model

| member | source | states |
|---|---|---|
| `PixelMaps.CopyPixMap` | Lab_5/Lab5_template_de1soc/software/lab5/graphic_lib/gimp_bmp.c:96-319 | after the pointer walk every byte of the destination is the byte of the converted active pixel at the same coordinates, or, in line padding and beyond the image, unchanged; for every size and all line widths of at least the active width; all accesses lie in the two buffers |
| `PixelMaps.StorePixel32To16` | Lab_5/Lab5_template_de1soc/software/lab5/graphic_lib/gimp_bmp.c:190-198 | shifts and masks of the loaded word store R(5):G(6):B(5) of the bytes R, G, B |
| `PixelMaps.StorePixel24To32` | Lab_5/Lab5_template_de1soc/software/lab5/graphic_lib/gimp_bmp.c:228-238 | the pointer walk stores B, G, R, 0xff |
| `PixelMaps.StorePixel24To16` | Lab_5/Lab5_template_de1soc/software/lab5/graphic_lib/gimp_bmp.c:306-314 | masking before shifting stores the same R(5):G(6):B(5) |
| `PixelMaps.ConvertedPixel` | Lab_5/Lab5_template_de1soc/software/lab5/graphic_lib/gimp_bmp.c:112-124 | each active pixel of the result is the converted source pixel with the same row and column |
| `PixelMaps.ConvertedBytes` | Lab_5/Lab5_template_de1soc/software/lab5/graphic_lib/gimp_bmp.c:96-319 | after each of the six conversions every byte of every active pixel is the named byte of the source pixel at the same coordinates: R, G, B and A or padding as they were, but B, G, R, 0xff from 24 to 32 bits, and the bits of 5:6:5, low byte first, in 16 |
| `PixelMaps.PaddingKept` | Lab_5/Lab5_template_de1soc/software/lab5/graphic_lib/gimp_bmp.c:219-243 | a byte outside all active pixels keeps its value |
| `PixelMaps.ConversionsCommute` | Lab_5/Lab5_template_de1soc/software/lab5/graphic_lib/gimp_bmp.c:128-203 | 32 to 16 directly equals 32 to 24 followed by 24 to 16, byte for byte, for every image, size and choice of three line widths |
| `PixelMaps.DetourAgrees` | Lab_5/Lab5_template_de1soc/software/lab5/graphic_lib/gimp_bmp.c:206-243 | 24 to 32 followed by 32 to 16 equals 24 to 16 if and only if the upper five bits of red and blue agree in every active pixel |
| `GimpBmp.Bitmap.LoadGimpBmp` | Lab_5/Lab5_template_de1soc/software/lab5/graphic_lib/gimp_bmp.c:5-94 | sizes go through `short`; without memory the answer is -1 and there is no data; otherwise the data is a fresh block of width x height x bytes; for the known formats and sizes that fit a `short` each of its bytes is the named byte of the dump, 0xff in the fourth one of an RGB dump at 32 bits; the conversion stays inside image and block |
| `GimpBmp.DefinedIffSizesFit` | Lab_5/Lab5_template_de1soc/software/lab5/graphic_lib/gimp_bmp.c:11-19 | the bitmap data is independent of what the allocated block held if and only if the image is empty or both sizes fit a `short` |
| `DrawGimps.ReadColor` | Lab_5/Lab5_template_de1soc/software/lab5/graphic_lib/draw_gimps.c:83-91 | four bytes through `color[4]` become R(8):G(8):B(8) of the bytes B, G, R, and the source advances by four |
| `DrawGimps.CopyImageToBuffer` | Lab_5/Lab5_template_de1soc/software/lab5/graphic_lib/draw_gimps.c:32-105 | the frame is overlaid by exactly the clipped, non-transparent pixels of the image at their addresses, for every position at which the drawn part lies in the frame |
| `DrawGimps.PixelCopyWords` | Lab_5/Lab5_template_de1soc/software/lab5/graphic_lib/draw_gimps.c:52-97 | every word of the drawn part is made of the first three bytes of its pixel and a zero top byte, unless that is the transparent colour |
| `DrawGimps.CopyRowsToBuffer` | Lab_5/Lab5_template_de1soc/software/lab5/graphic_lib/draw_gimps.c:14-30 | the row copy overlays the frame with the words of the image |
| `DrawGimps.RowCopyBytes` | Lab_5/Lab5_template_de1soc/software/lab5/graphic_lib/draw_gimps.c:20-27 | every word of the image holds the four bytes of its pixel, alpha included |
| `DrawGimps.RowCopyRefinesPixelCopy` | Lab_5/Lab5_template_de1soc/software/lab5/graphic_lib/draw_gimps.c:14-65 | on every frame and image the row copy and the pixel copy at (0, 0) with full fit agree in the low 24 bits of every word |
| `DrawGimps.TransparencyUnused` | Lab_5/Lab5_template_de1soc/software/lab5/graphic_lib/draw_gimps.c:93-97 | the blit with a transparent colour equals the blit without if and only if no drawn pixel has the colour |
| `DrawGimps.FitIsExact` | Lab_5/Lab5_template_de1soc/software/lab5/graphic_lib/draw_gimps.c:57-59 | for every image and fit, the clipped blit draws exactly the columns and rows the fit asks for if and only if the image is no wider and no higher than the fit, or one of the two is empty |
| `DrawGimps.BlitOfBitmap` | Lab_5/Lab5_template_de1soc/software/lab5/graphic_lib/draw_gimps.c:205-221 | blitting the converted bitmap draws the colours of the dump: the byte orders of conversion and blit cancel |
| `DrawGimps.DispImageFromGimp` | Lab_5/Lab5_template_de1soc/software/lab5/graphic_lib/draw_gimps.c:191-231 | the frame that `DisplayFrame` names, and no other, is overlaid by the layer of what the bitmap keeps of an image of any size, and the answer is 1; without memory for the bitmap's description nothing is drawn and the answer is 0 |
| `DrawGimps.DispImageFit` | Lab_5/Lab5_template_de1soc/software/lab5/graphic_lib/draw_gimps.c:149-189 | the same for the clipped image with every colour opaque |
| `DrawGimps.ImageFitIsExact` | Lab_5/Lab5_template_de1soc/software/lab5/graphic_lib/draw_gimps.c:149-189 | the same for the layer that `DispIMAGE_fit` draws of a dump |
| `DrawGimps.ImageOnScreen` | Lab_5/Lab5_template_de1soc/software/lab5/graphic_lib/draw_gimps.c:191-231 | at every screen coordinate the word after drawing is the image's colour exactly when the coordinate is in the image and the colour is not the transparent one, and the old word otherwise |
| `DrawGimps.ShownTruly` | Lab_5/Lab5_template_de1soc/software/lab5/graphic_lib/draw_gimps.c:52-55 | a pixel is shown in its own colour if and only if the dump is RGB or the pixel's red equals its blue |
| `DrawGimps.PlacementOrderIsFree` | Lab_5/Lab5_template_de1soc/software/lab5/graphic_lib/draw_gimps.c:80-102 | any images that do not touch give the same frame in every order and however often each is drawn |
| `DrawGimps.TransportOrderIsFree` | Lab_5/Lab5_template_de1soc/software/lab5/hello_ucosii.c:111-115 | the five transport images, of any contents, give the same frame in each of their orders |
| `ImageOverlays.CompositeLayer` | Lab_5/Lab5_template_de1soc/software/lab5/hello_ucosii.c:268-273 | drawing image b after image a of its size, at one place, is drawing the one RGB dump whose pixels are b's, or a's where b's are transparent; for RGB and RGBA dumps in any mixture |
| `ImageOverlays.RedrawsAreOneDrawing` | Lab_5/Lab5_template_de1soc/software/lab5/hello_ucosii.c:268-313 | however often a place is redrawn with images of one size, the frame is what one drawing of their composite makes of it |
| `ImageOverlays.RedrawForgets` | Lab_5/Lab5_template_de1soc/software/lab5/graphic_lib/draw_gimps.c:80-102 | for any two images at any two places, drawing the second over the first shows what drawing the second alone shows if and only if no screen coordinate has a colour of the first that is new to the frame and none of the second |
| `ImageOverlays.RedrawForgetsVersion` | Lab_5/Lab5_template_de1soc/software/lab5/hello_ucosii.c:268-273 | for two versions of one size at one place, if and only if every pixel transparent in the new version was transparent in the old one or had the colour already in the frame |
| `ImageOverlays.RedrawAlwaysForgets` | Lab_5/Lab5_template_de1soc/software/lab5/hello_ucosii.c:268-273 | on every frame alike, if and only if the new version is transparent nowhere but where the old one is |
| `TransportClicks.DrawnIsTransport` | Lab_5/Lab5_template_de1soc/software/lab5/hello_ucosii.c:111-115 | the five drawings of one click are the transport images at the coordinates of the source |
| `TransportClicks.DrawnOver` | Lab_5/Lab5_template_de1soc/software/lab5/hello_ucosii.c:268-313 | drawing five versions and then five others is drawing their five composites once |
| `TransportClicks.RunIsOneDrawing` | Lab_5/Lab5_template_de1soc/software/lab5/hello_ucosii.c:268-325 | any run of such redraws is one drawing of five composites |
| `TransportClicks.ClicksLeaveNoTrace` | Lab_5/Lab5_template_de1soc/software/lab5/hello_ucosii.c:268-325 | on every frame and after every run of clicks the screen is what the versions of the last click alone make of it, if and only if the released and the pressed version of each image are transparent at the same pixels |
| `TransportClicks.PanelShows` | Lab_5/Lab5_template_de1soc/software/lab5/hello_ucosii.c:185-335 | in every reachable state between polls of the two tasks the screen shows the images that the panel has as pressed, under that condition |
| `FrameReader.VipFrameReader.Init` | Lab_5/Lab5_template_de1soc/software/lab5/vip_fr.c:21-44 | the reader starts on frame 0 with register and index agreeing, whether or not the frames are one memory |
| `FrameReader.VipFrameReader.ActiveDrawFrame` | Lab_5/Lab5_template_de1soc/software/lab5/vip_fr.c:76-80 | index and register move to the other frame together; no picture changes |
| `FrameReader.VipFrameReader.ReserveBackground` | Lab_5/Lab5_template_de1soc/software/lab5/vip_fr.c:122-141 | the draw frame takes the displayed picture and nothing else changes, shared memory included |
| `FrameReader.VipFrameReader.SetPixel` | Lab_5/Lab5_template_de1soc/software/lab5/graphic_lib/simple_graphics.c:299-308 | one word of the frame `VIPFR_GetDrawFrame` returns changes |
| `FrameReader.VipFrameReader.EraseScreen` | Lab_5/Lab5_template_de1soc/software/lab5/vip_fr.c:82-84 | each of the four bytes of every word of the draw frame becomes the low byte of the colour |
| `FrameReader.ErasedToColor` | Lab_5/Lab5_template_de1soc/software/lab5/vip_fr.c:82-84 | for every colour word and every state, the erased draw frame shows the colour asked for if and only if its red, green and blue are equal |
| `FrameReader.RegisterFollows` | Lab_5/Lab5_template_de1soc/software/lab5/vip_fr.c:76-80 | in every run register and index are equal and are the parity of the swaps |
| `FrameReader.FramesRefinePair` | Lab_5/Lab5_template_de1soc/software/lab5/vip_fr.c:71-80 | with two frames, in every run, frames, index and register refine a pair of a shown and a hidden picture |
| `FrameReader.ScreenIsSafe` | Lab_5/Lab5_template_de1soc/software/lab5/vip_fr.c:71-75 | between two swaps the screen changes by drawings on the displayed frame alone; drawing through `VIPFR_GetDrawFrame` and reserving never show |
| `FrameReader.SwapShowsDrawFrame` | Lab_5/Lab5_template_de1soc/software/lab5/vip_fr.c:71-80 | after any run and a swap the screen shows what the draw frame held, plus later drawings on the displayed frame |
| `FrameReader.FlipShowsDrawings` | Lab_5/Lab5_template_de1soc/software/lab5/vip_fr.c:76-141 | reserve, draw, activate shows the old picture plus the drawings, with two frames and with one |
| `FrameReader.PreparationIsInvisible` | Lab_5/Lab5_template_de1soc/software/lab5/vip_fr.c:122-141 | with two frames the picture does not change before the swap |
| `FrameReader.SharedFrameShowsAll` | Lab_5/Lab5_template_de1soc/software/lab5/hello_ucosii.c:343-346 | with one base for both frames the screen is at all times the overlay of all drawings; reserving and swapping change nothing |
| `DmaChain.BuildChain` | Lab_5/Lab5_template_de1soc/software/lab5/vip_fr.c:161-178 | the chain has the precomputed number of descriptors, contiguous from the start, tiling the size exactly, each linked to the next but the last |
| `DmaChain.BlocksFull` | Lab_5/Lab5_template_de1soc/software/lab5/vip_fr.c:168-178 | every descriptor but the last has 32768 bytes and a link, the last ends the copy and has the null link, none is empty, all lie inside the size |
| `DmaChain.ChainIsMemcpy` | Lab_5/Lab5_template_de1soc/software/lab5/vip_fr.c:146-182 | following any chain that tiles a positive size makes of a separate destination what `memcpy` makes of it |
| `DmaChain.DmaReserves` | Lab_5/Lab5_template_de1soc/software/lab5/vip_fr.c:136-140 | the transfer on the bytes of two frames leaves the bytes of the displayed words in the draw frame |
| `DmaChain.WordsBack` | Lab_5/Lab5_template_de1soc/software/lab5/vip_fr.c:126-140 | the bytes of a frame determine its words |
| `DmaChain.MyMemcpy` | Lab_5/Lab5_template_de1soc/software/lab5/vip_fr.c:146-185 | the copy completes, and is the `memcpy`, if and only if the device is found and the size is positive; without the device the destination is unchanged; a transfer of no positive size leaves it open |
| `KeySchedule.KeyRepeats` | Lab_4/decode_script.py:9-17 | two steps use one and the same key byte if and only if their numbers differ by a multiple of 3 |
| `KeySchedule.MemoryList.InitializeMemory` | Lab_4/decode_script.py:19-24 | 0 to 255 are appended to whatever the list held |
| `KeySchedule.MemoryList.SecondForLoop` | Lab_4/decode_script.py:26-37 | for every list of at least 256 entries and every key the loop performs the 256 specified steps |
| `KeySchedule.StepChanges` | Lab_4/decode_script.py:29-33 | each step adds the entry and the key byte of its number to j, modulo 256, exchanges entries i and j, and leaves all others |
| `KeySchedule.ScriptStarts` | Lab_4/decode_script.py:26-43 | the first three steps of the script, in numbers: j is 0, 3, 78 |
| `KeySchedule.RunRearranges` | Lab_4/decode_script.py:29-33 | every intermediate list holds the starting values, and entries beyond 255 stay |
| `KeySchedule.ScheduleUndone` | Lab_4/decode_script.py:29-33 | undoing the swaps and subtracting, last step first, restores list and j; and doing the steps restores what was undone |
| `KeySchedule.ScheduleIsBijective` | Lab_4/decode_script.py:26-37 | for every key the schedule is injective and surjective on lists and indices |
| `KeySchedule.SwapTurnsParity` | Lab_4/decode_script.py:31-33 | a swap of two different entries of a list of distinct values turns the parity of its inversions |
| `KeySchedule.ScheduleParity` | Lab_4/decode_script.py:29-33 | the parity of the inversions after any number of steps is that at the start plus the number of steps with i different from j |
| `KeySchedule.DecodeScript` | Lab_4/decode_script.py:40-43 | the script's own list is a rearrangement of 0 to 255 whose parity is that of its real swaps |
| `Channels.SplitOfMerge` | Lab_5/Lab5_template_de1soc/software/lab5/graphic_lib/simple_text.c:81-152 | splitting a merged colour gives the channels back if and only if they are in range for the depth |
| `Channels.MergeOfSplit` | Lab_5/Lab5_template_de1soc/software/lab5/graphic_lib/simple_text.c:81-152 | merging the channels of a colour stores that colour again and leaves the bytes after it |
| `Channels.AnswerTellsRoundTrip` | Lab_5/Lab5_template_de1soc/software/lab5/graphic_lib/simple_text.c:81-152 | both functions give one answer, and it is 1 if and only if every colour in range for the depth comes back from the memory it was merged into; otherwise both give zeros |
| `Channels.PackedPixelsSplit` | Lab_5/Lab5_template_de1soc/software/lab5/graphic_lib/simple_text.c:86-94 | splitting a 16-bit pixel of either converter gives R>>3, G>>2, B>>3 of the source pixel |
| `Channels.BlendBetween` | Lab_5/Lab5_template_de1soc/software/lab5/graphic_lib/simple_text.c:236-238 | the blend lies between foreground and background |
| `Channels.BlendIsMean` | Lab_5/Lab5_template_de1soc/software/lab5/graphic_lib/simple_text.c:236-238 | the blend is the mean of foreground and background weighted by alpha in 255, rounded down |
| `Channels.BlendEnds` | Lab_5/Lab5_template_de1soc/software/lab5/graphic_lib/simple_text.c:236-238 | alpha 0 gives the background, 255 the foreground, equal colours themselves |
| `Channels.BlendMoves` | Lab_5/Lab5_template_de1soc/software/lab5/graphic_lib/simple_text.c:236-238 | the blend is monotone in alpha, toward the foreground |
| `Channels.BlendMirrors` | Lab_5/Lab5_template_de1soc/software/lab5/graphic_lib/simple_text.c:236-238 | exchanging the colours and complementing alpha changes nothing |
| `Channels.ClipIsIdle` | Lab_5/Lab5_template_de1soc/software/lab5/graphic_lib/simple_text.c:241-254 | at 16, 24 and 32 bits the clip never fires on channels in range, and the result is in range |
| `Channels.ClipCuts` | Lab_5/Lab5_template_de1soc/software/lab5/graphic_lib/simple_text.c:241-260 | at 16 bits, on any channels, each blended channel is cut to 31, 63, 31 and no other way changed; at an unknown depth the channels stay |
| `SimpleText.BlendPixel` | Lab_5/Lab5_template_de1soc/software/lab5/graphic_lib/simple_text.c:219-261 | at depth 32 each channel of the word written is the mean of the text's and the background's, weighted by alpha and rounded down, the background read from the frame if it is clear, whatever `new_color` held |
| `SimpleText.PrintChar` | Lab_5/Lab5_template_de1soc/software/lab5/graphic_lib/simple_text.c:273-308 | the visible frame is overlaid by the blended glyph and every word outside the glyph's cell is unchanged |
| `TextLayout.PrintString` | Lab_5/Lab5_template_de1soc/software/lab5/graphic_lib/simple_text.c:18-63 | the cells drawn by the moving cursor are those of the measured layout, in order, and no other word changes |
| `TextLayout.CursorMoves` | Lab_5/Lab5_template_de1soc/software/lab5/graphic_lib/simple_text.c:27-61 | the measured place of the next character is the place of this one advanced by its width, or, after a newline, the start of the line one '\|' height lower |
| `TextLayout.StringPixelLength` | Lab_5/Lab5_template_de1soc/software/lab5/graphic_lib/simple_text.c:318-337 | the length is the measured width of the string if every character is a space or has a glyph; on any other string the source looks outside the font |
| `TextPictures.MeasuredPlacement` | Lab_5/Lab5_template_de1soc/software/lab5/graphic_lib/simple_text.c:57-58 | without tab and newline a character stands at the start plus the measured length of the text before it |
| `TextPictures.CellsAreApart` | Lab_5/Lab5_template_de1soc/software/lab5/graphic_lib/simple_text.c:27-61 | the cells of a string whose lines stay on the screen share no pixel; for strings with newlines, if no glyph is higher than '\|' |
| `TextPictures.TextPicture` | Lab_5/Lab5_template_de1soc/software/lab5/graphic_lib/simple_text.c:288-305 | after a string every pixel of every glyph is the blend of its colour with the background, or with the old picture, by its own alpha entry, and every other pixel is the old one |
| `TextPictures.OpaqueTextIsOverlay` | Lab_5/Lab5_template_de1soc/software/lab5/graphic_lib/simple_text.c:226-233 | on an opaque background text is an overlay that does not depend on the picture under it |
| `TextPictures.PrintingTwice` | Lab_5/Lab5_template_de1soc/software/lab5/graphic_lib/simple_text.c:18-63 | of two calls that print one string on an opaque background the second shows nothing new, and both together have done what one call does |
| `TextPictures.PrintStringTwice` | Lab_5/Lab5_template_de1soc/software/lab5/graphic_lib/simple_text.c:18-63 | two calls on a display leave its draw frame printed with the string as one call does |
| `TextPictures.BlankIsBackground` | Lab_5/Lab5_template_de1soc/software/lab5/graphic_lib/simple_text.c:36-54 | after a string is printed on an opaque background every pixel in the measured place of a space or tab is of the background colour |
| `PrintedText.PenMeasures` | Lab_5/Lab5_template_de1soc/software/lab5/graphic_lib/simple_text.c:27-61 | the measured layout puts every character where a pen stands that advances by the font's widths, by that of '-' for a space and twice that for a tab, and by the height of '\|' for a newline |
| `PrintedText.StringPicture` | Lab_5/Lab5_template_de1soc/software/lab5/graphic_lib/simple_text.c:18-308 | after `vid_print_string_alpha` every pixel of every letter of the string, at the pen's place, shows the text colour over the background by that glyph's own alpha entry, channel by channel; every pixel of a blank on an opaque background shows it; every other word of the frame is what it was |
| `PrintedText.ExtremePixels` | Lab_5/Lab5_template_de1soc/software/lab5/graphic_lib/simple_text.c:236-238 | in a printed string the letter pixels of alpha 255 have the text colour, and those of alpha 0 the background colour or, on a clear background, the one that was there |
| `SongMachine.ButtonsFound` | Lab_5/Lab5_template_de1soc/software/lab5/hello_ucosii.c:192-263 | a modulation or signal button is found if and only if the mouse is in its box |
| `SongMachine.TransportFound` | Lab_5/Lab5_template_de1soc/software/lab5/hello_ucosii.c:266-318 | a transport button is found if and only if the mouse is in its box |
| `Desktop.ClicksFindImages` | Lab_5/Lab5_template_de1soc/software/lab5/hello_ucosii.c:266-318 | the box of a button is its image and one more column and row |
| `SongMachine.PollDone` | Lab_5/Lab5_template_de1soc/software/lab5/hello_ucosii.c:188-332 | the statements of one poll take the panel of the earlier polls to the panel of all polls |
| `SongMachine.PanelFollowsPolls` | Lab_5/Lab5_template_de1soc/software/lab5/hello_ucosii.c:185-337 | in every reachable state of every interleaving, executing what is left of a poll makes the panel what the polls alone describe |
| `SongMachine.SettledPanel` | Lab_5/Lab5_template_de1soc/software/lab5/hello_ucosii.c:312-330 | between polls the frequency is the fold of saturating steps of 100 within 100 and 88000, exactly the last selected modulation and signal are highlighted and selected, and the flags are those of the last mode |
| `SongMachine.NeverDividesByZero` | Lab_5/Lab5_template_de1soc/software/lab5/hello_ucosii.c:312-316 | no run computes the divider from frequency 0, although a click may pass through it |
| `SongMachine.DividerInBounds` | Lab_5/Lab5_template_de1soc/software/lab5/drivers/drivers.c:77-84 | the divider for a frequency f is the largest d with 2 f (d + 1) at most 50 MHz |
| `SongClicks.DividerFitsFreq` | Lab_5/Lab5_template_de1soc/software/lab5/hello_ucosii.c:312-330 | in every reachable state between polls the frequency is a multiple of 100 from 100 to 88000 and the divider is the one for it |
| `SongClicks.FirstSteps` | Lab_5/Lab5_template_de1soc/software/lab5/hello_ucosii.c:312-330 | 44000 Hz and divider 567 at the start, 44100 and 565 after a click forward, 43900 and 568 after a click back |
| `SongClicks.TransportStatements` | Lab_5/Lab5_template_de1soc/software/lab5/hello_ucosii.c:266-330 | the statements of a click on each transport image, in their order |
| `SongClicks.TransportClick` | Lab_5/Lab5_template_de1soc/software/lab5/hello_ucosii.c:266-330 | what a click on each transport image, given by its box in pixels, makes of flags, frequency and pressed image, whatever turns fall into it |
| `SongClicks.NoTransportClick` | Lab_5/Lab5_template_de1soc/software/lab5/hello_ucosii.c:266-330 | a poll outside the five boxes leaves flags, frequency, divider and pressed image |
| `SongClicks.ModulationClick` | Lab_5/Lab5_template_de1soc/software/lab5/hello_ucosii.c:192-226 | a click in the box of a modulation selects and highlights that one alone; a poll in none of the four boxes leaves them |
| `SongClicks.SignalClick` | Lab_5/Lab5_template_de1soc/software/lab5/hello_ucosii.c:229-263 | the same for the signals |
| `SongMachine.InterruptedClick` | Lab_5/Lab5_template_de1soc/software/lab5/hello_ucosii.c:160-173 | wherever task 1 interrupts a click it acts on the mode before, on the mode after, or holds; it resets only if one of the two is stop; between polls at most one flag is set |
| `SongClicks.TurnByFlags` | Lab_5/Lab5_template_de1soc/software/lab5/hello_ucosii.c:158-175 | a turn plays if play is set, else stands if pause is set, else rewinds to 0 without pushing if stop is set, else stands; playing pushes the 1000 samples from the position modulo the size on |
| `SongPlay.PositionInRange` | Lab_5/Lab5_template_de1soc/software/lab5/hello_ucosii.c:156-173 | in every reachable state the play position is a multiple of 1000, non-negative and below the song size plus 1000 |
| `SongPlay.PlayFrom` | Lab_5/Lab5_template_de1soc/software/lab5/hello_ucosii.c:160-168 | from every reachable state of play, n turns of task 1 move the position round the ceil(size/1000)+1 positions in order, push the n blocks found there, and change nothing else |
| `SongPlay.PlayedInOrder` | Lab_5/Lab5_template_de1soc/software/lab5/hello_ucosii.c:156-173 | from any state and under any interleaving in which no turn resets the position, what is pushed and where the position ends are those of as many uninterrupted turns of play as turns took the play branch: pauses, clicks and half-written flags lose and repeat nothing |
| `SongPlay.WithoutStop` | Lab_5/Lab5_template_de1soc/software/lab5/hello_ucosii.c:156-337 | in every run in which stop is never clicked, all that has been pushed is the song played in order from its start |
| `SongClicks.StopRewinds` | Lab_5/Lab5_template_de1soc/software/lab5/hello_ucosii.c:156-337 | from every reachable settled stop, after one turn and under any interleaving without another click on stop, what is pushed is the song from its start, as many blocks as turns played |
| `SongClicks.StopThenPlay` | Lab_5/Lab5_template_de1soc/software/lab5/hello_ucosii.c:156-337 | stop, one turn, a click on play and n turns push the song from its start; within the song these are the samples 0, 1, 2 and so on |
| `SongPlay.EverySamplePlayed` | Lab_5/Lab5_template_de1soc/software/lab5/hello_ucosii.c:141-168 | from every reachable state of play, one period of turns leads back to the position and pushes every sample of the song |
| `SongPlay.NeverExactlyOnce` | Lab_5/Lab5_template_de1soc/software/lab5/hello_ucosii.c:160-168 | for every song size, one period from any reachable state of play pushes more samples than the song has, so it is never the song once, in any order |
| `SongPlay.OnePeriod` | Lab_5/Lab5_template_de1soc/software/lab5/hello_ucosii.c:141-168 | for every song of at least 1000 samples, what one period from its start pushes, sample by sample, including what the last block reads past the end and what the position past the end replays |
| `SongPlay.OnePeriodOfShortSong` | Lab_5/Lab5_template_de1soc/software/lab5/hello_ucosii.c:141-168 | the same for every shorter song |
| `SongPlay.FirstBlockTwice` | Lab_5/Lab5_template_de1soc/software/lab5/hello_ucosii.c:160-168 | if the song is a whole number of blocks long, one period from its start pushes the song once in order and then its first block again |
| `SongPlay.PlayStaysInSong` | Lab_5/Lab5_template_de1soc/software/lab5/hello_ucosii.c:141-162 | in every reachable state of every run nothing but samples of the song has been pushed, if and only if the size is a multiple of 1000 or 1000 a multiple of the size |
| `SongPlay.GeneratedSong` | Lab_5/songs_images_and_scripts/readbin.m:8-11 | no run on a song of whole seconds, as the song script makes it, pushes anything but samples of the song |
| `SongPlayer.Player.SendAudioFifo` | Lab_5/Lab5_template_de1soc/software/lab5/hello_ucosii.c:141 | 1000 samples are pushed, those of the specification and in order |
| `SongPlayer.Player.Task1Turn` | Lab_5/Lab5_template_de1soc/software/lab5/hello_ucosii.c:158-175 | a turn of the loop is the turn of the machine; the variables after it are stated for each branch |
| `SongPlayer.Player.Execute` | Lab_5/Lab5_template_de1soc/software/lab5/hello_ucosii.c:188-332 | each statement of the second loop is a step of the machine; its division is safe and the divider fits the frequency |
| `SongPlayer.Player.Task2Poll` | Lab_5/Lab5_template_de1soc/software/lab5/hello_ucosii.c:185-335 | a poll with any number of turns of task 1 before each statement is a run of the machine that ends with nothing pending |

## Left out

- FrameReader.VipFrameReader.Init: the registers of frame base, words, width, height and interlacing, and frame sizes changed after initialisation; go and frame select are modelled.
- FrameReader.VipFrameReader.SetPixel: colour depth 32, the only one `VIPFR_Init` sets; the 16- and 24-bit branches are not modelled.
- SimpleText.BlendPixel: colour depth 32, for the same reason; the blend itself is proved at all three depths (`Channels.ClipIsIdle`).
- SimpleText.PrintChar: colour depth 32, and the low 24 bits of the words it writes; the top byte of `new_color` is never set by the source.
- TextLayout.PrintString: colour depth 32 and the low 24 bits, as for a character.
- DrawGimps.DispImageFromGimp: images of which a drawn pixel would fall outside the frame, and failure of the second `malloc`, that of the bitmap data, after which the source blits from a null pointer.
- DrawGimps.DispImageFit: the same, and its read of `image->biWidth` for `printf` before the null test, so that without memory the source may fail before it answers 0.
- DrawGimps.CopyRowsToBuffer: the `printf` after row 349, which for an image of 350 rows reads one byte past the data.
- DmaChain.MyMemcpy: failure of the `malloc` of the descriptors, which the source does not test.
- TransportClicks.PanelShows: the lines, boxes and text drawn beside the transport images between their redraws.
- DmaChain.BuildChain: wrap-around of `int` for sizes within 32 KB of 2 GB, and overlapping buffers.
- GimpBmp.Bitmap.LoadGimpBmp: wrap-around of the byte count, the product of sizes and depth.
- GimpBmp.DefinedIffSizesFit: the same.
- KeySchedule.MemoryList.SecondForLoop: lists of fewer than 256 entries, on which the script raises an index error; printing and the log file.
- SongPlayer.Player.SendAudioFifo: the wait while the audio FIFO is full, and wrap-around of the position for songs near 2 GB.
- SongPlayer.Player.Task2Poll: the nested tests of the mouse position are functions and not branches of the method; `mouse_pos` is an input; the boxes and text that `draw_button` draws are a highlight flag per button.
- `DispIMAGE` draws at the top left whatever position it is given; its blit is modelled, the wrapper is not.
- Frames that overlap in part: two frame bases are the same memory or separate ones.
- Cache flushes.
- Lines, circles, triangles, boxes and the bitmap font of `simple_graphics.c`.
- The contents of images and fonts, which are arbitrary here; only the sizes of the transport images are fixed.
- The hardware of Labs 1 to 4.
