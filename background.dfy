/** EmojiArtModel.Background: the canvas backdrop of a document. */
module ModelBackground {
  import opened Wrappers
  import opened FoundationTypes

  /** Nothing, a remote image to download, or image bytes stored in the document. */
  datatype Background = Blank | Url(location: URL) | ImageData(bytes: Data) {

    /** The `url` accessor: the URL exactly when this is a `.url` background. */
    function AsUrl(): (r: Option<URL>)
      ensures r.Some? <==> Url?
      ensures r.Some? ==> this == Url(r.value)
    {
      match this
      case Url(u) => Some(u)
      case _ => None
    }

    /** The `imageData` accessor: the bytes exactly when this is an `.imageData` background. */
    function AsImageData(): (r: Option<Data>)
      ensures r.Some? <==> ImageData?
      ensures r.Some? ==> this == ImageData(r.value)
    {
      match this
      case ImageData(d) => Some(d)
      case _ => None
    }
  }

  /** At most one accessor answers, and a blank background answers neither. */
  lemma AccessorsExclusive(b: Background)
    ensures b.AsUrl().None? || b.AsImageData().None?
    ensures b.Blank? <==> b.AsUrl().None? && b.AsImageData().None?
  {
  }

  /** The synthesized `Equatable`: same case and equal payload. */
  lemma EqualityIsStructural(a: Background, b: Background)
    ensures a == b <==>
      || (a.Blank? && b.Blank?)
      || (a.Url? && b.Url? && a.location == b.location)
      || (a.ImageData? && b.ImageData? && a.bytes == b.bytes)
  {
  }
}
