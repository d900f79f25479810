/** hello_ucosii.c: the transport images on the screen and the boxes in which clicks find them. */
module Desktop {
  import opened Common
  import opened GimpBmp
  import DrawGimps
  import SongMachine

  function ButtonOf(i: nat): SongMachine.Button
    requires i < 5
  {
    [SongMachine.PlayButton, SongMachine.StopButton, SongMachine.PauseButton, SongMachine.BackButton,
     SongMachine.FordButton][i]
  }

  /** A click on any pixel of a transport image is a click on its button; the box in which the button is found is the
      image and one more pixel column and row. */
  lemma ClicksFindImages(play: GimpImage, stop: GimpImage, pause: GimpImage, back: GimpImage, ford: GimpImage,
                         i: nat, x: int, y: int)
    requires DrawGimps.Sized(play, 94, 109) && DrawGimps.Sized(stop, 98, 111) && DrawGimps.Sized(pause, 108, 112)
    requires DrawGimps.Sized(back, 61, 57) && DrawGimps.Sized(ford, 61, 57)
    requires i < 5
    ensures var p := DrawGimps.Transport(play, stop, pause, back, ford)[i];
            && (DrawGimps.Covers(p, x, y) ==> SongMachine.ButtonAt(x, y) == Some(ButtonOf(i)))
            && (SongMachine.ButtonAt(x, y) == Some(ButtonOf(i)) <==>
                  DrawGimps.Covers(p, x, y) || DrawGimps.Covers(p, x - 1, y) || DrawGimps.Covers(p, x, y - 1)
                  || DrawGimps.Covers(p, x - 1, y - 1))
  {
    SongMachine.TransportFound(x, y, ButtonOf(i));
  }
}
