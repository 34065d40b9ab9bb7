/** Values shared by the conversion pipeline and its host: the kinds of asset a batch
    entry may declare, the image formats, and a decoded image. */
module Assets {

  datatype Option<T> = None | Some(value: T)

  /** Extractor.AssetType: the kind of asset an input entry declares. */
  datatype AssetType = Texture2D | TextureCube | MusicOrSound

  /** Extractor.ImageExtension: the format the images are saved in. */
  datatype ImageExtension = Png | Jpeg

  /** Edge length of a decoded cube texture. */
  type Size = n: nat | n > 0 witness 1

  /** A decoded texture as the encoder sees it: its size and its pixels, row by row. */
  datatype Image = Image(width: nat, height: nat, pixels: seq<int>)

  /** One input of a batch: a path and its declared asset kind. */
  datatype Entry = Entry(path: string, kind: AssetType)
}
