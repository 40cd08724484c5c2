/** The label that keeps what a label pointed to before, for the DLRN server and the image links. */
module Labels {

  function PreviousLabel(name: string): string {
    "previous-" + name
  }

  lemma PreviousDiffers(name: string)
    ensures PreviousLabel(name) != name
  {
    assert |PreviousLabel(name)| == 9 + |name|;
  }
}
