/** The asset formats the service serves and the file extension each is
    saved under (the `EXTS` table, amuse.py:18-22). */
module Formats {

  const EXTS: map<string, string> := map["mp3" := "mp3", "midi" := "midi", "img" := "svg"]

  /** The table knows exactly the audio, MIDI and page-image formats, no two
      of them share an extension, and none is saved as `pdf`, the
      extension of the merged document. */
  lemma ExtensionsDistinct()
    ensures EXTS.Keys == {"mp3", "midi", "img"}
    ensures forall f, g :: f in EXTS && g in EXTS && f != g ==> EXTS[f] != EXTS[g]
    ensures "pdf" !in EXTS.Values
  {
  }
}
