/** What the extractor reaches outside itself: the file system (FileInfo.Exists,
    FileInfo.CopyTo, File.Exists, File.Create), the content pipeline that decodes a
    staged container (ContentManager.Load, TextureCube.GetData), the overwrite dialog
    (MessageBox.Show with Yes/No) and the image encoder (SaveAsPng, SaveAsJpeg).

    The file system is the set of paths that exist. Everything the extractor cannot
    decide itself is an oracle: a total function fixed for the lifetime of the host.
    Every call that decodes, probes an output, asks or writes is recorded in `trace`,
    so that the order of what the extractor did can be stated. */
module Host {
  import opened Assets

  /** One observable step of a conversion. */
  datatype Event =
    | Load(path: string)                                           // content.Load on the staged copy
    | Target(path: string)                                         // File.Exists on an output path
    | Ask(path: string, replace: bool)                             // the overwrite dialog and its answer
    | Save(path: string, format: ImageExtension, image: Image)     // File.Create and encode succeeded
    | SaveFailed(path: string)                                     // File.Create or encode threw

  /** The decisions that belong to the outside world. */
  datatype Oracles = Oracles(
    pathRejected: string -> bool,          // new FileInfo(path) throws for this non-empty path (characters or a length the runtime refuses)
    copyFails: string -> bool,             // CopyTo of this input throws for a reason other than an existing destination
    loadTexture: string -> Option<Image>,  // content.Load<Texture2D> of a staged path; None: it throws
    loadCube: string -> Option<Size>,      // content.Load<TextureCube> of a staged path: the edge size; None: it throws
    facePixel: (string, nat, nat) -> int,  // pixel k of face i of the cube loaded from a staged path
    confirm: string -> bool,               // the user's answer to "replace <path>?"
    createFails: string -> bool            // File.Create or the encoder throws for this output path
  )

  /** `new FileInfo(path)` throws: always for the empty path, and for whatever else the
      runtime refuses. */
  predicate FileInfoRejects(o: Oracles, path: string) {
    path == "" || o.pathRejected(path)
  }

  /** The pixels TextureCube.GetData hands back for one face, `count` of them. */
  function FacePixels(o: Oracles, asset: string, face: nat, count: nat): seq<int>
  {
    seq(count, k requires 0 <= k < count => o.facePixel(asset, face, k))
  }

  class FileHost {
    var paths: set<string>
    var trace: seq<Event>
    const oracles: Oracles

    constructor (existing: set<string>, oracles: Oracles)
      ensures paths == existing && trace == [] && this.oracles == oracles
    {
      paths := existing;
      trace := [];
      this.oracles := oracles;
    }

    /** The FileInfo constructor: false when it throws. */
    method NewFileInfo(path: string) returns (ok: bool)
      ensures ok <==> !FileInfoRejects(oracles, path)
    {
      ok := path != "" && !oracles.pathRejected(path);
    }

    /** FileInfo.Exists */
    method FileExists(path: string) returns (b: bool)
      ensures b <==> path in paths
    {
      b := path in paths;
    }

    /** FileInfo.CopyTo(dst) without the overwrite flag: it throws when `dst` already
        exists, and otherwise whenever the oracle says the copy fails. */
    method CopyTo(src: string, dst: string) returns (ok: bool)
      modifies this
      ensures ok <==> dst !in old(paths) && !oracles.copyFails(src)
      ensures paths == if ok then old(paths) + {dst} else old(paths)
      ensures trace == old(trace)
    {
      ok := dst !in paths && !oracles.copyFails(src);
      if ok {
        paths := paths + {dst};
      }
    }

    /** content.Load<Texture2D>(asset) */
    method LoadTexture(asset: string) returns (t: Option<Image>)
      modifies this
      ensures t == oracles.loadTexture(asset)
      ensures paths == old(paths) && trace == old(trace) + [Load(asset)]
    {
      t := oracles.loadTexture(asset);
      trace := trace + [Load(asset)];
    }

    /** content.Load<TextureCube>(asset) */
    method LoadCube(asset: string) returns (size: Option<Size>)
      modifies this
      ensures size == oracles.loadCube(asset)
      ensures paths == old(paths) && trace == old(trace) + [Load(asset)]
    {
      size := oracles.loadCube(asset);
      trace := trace + [Load(asset)];
    }

    /** cube.GetData((CubeMapFace)face, data): refills the whole buffer with one face. */
    method GetData(asset: string, face: nat, data: array<int>)
      modifies data
      ensures data[..] == FacePixels(oracles, asset, face, data.Length)
    {
      forall k | 0 <= k < data.Length {
        data[k] := oracles.facePixel(asset, face, k);
      }
    }

    /** File.Exists on an output path. */
    method TargetExists(path: string) returns (b: bool)
      modifies this
      ensures b <==> path in paths
      ensures paths == old(paths) && trace == old(trace) + [Target(path)]
    {
      b := path in paths;
      trace := trace + [Target(path)];
    }

    /** MessageBox.Show("<path> Already exists, replace it?", ..., YesNo) == Yes */
    method Confirm(path: string) returns (yes: bool)
      modifies this
      ensures yes == oracles.confirm(path)
      ensures paths == old(paths) && trace == old(trace) + [Ask(path, yes)]
    {
      yes := oracles.confirm(path);
      trace := trace + [Ask(path, yes)];
    }

    /** File.Create(path) followed by SaveAsPng or SaveAsJpeg into the stream. */
    method Create(path: string, format: ImageExtension, image: Image) returns (ok: bool)
      modifies this
      ensures ok <==> !oracles.createFails(path)
      ensures paths == if ok then old(paths) + {path} else old(paths)
      ensures trace == old(trace) + [if ok then Save(path, format, image) else SaveFailed(path)]
    {
      ok := !oracles.createFails(path);
      if ok {
        paths := paths + {path};
        trace := trace + [Save(path, format, image)];
      } else {
        trace := trace + [SaveFailed(path)];
      }
    }
  }
}
