/** The Extractor class: the loop over a batch of entries and the two conversion
    routines, as methods that change the host's file system and trace and the
    extractor's own list of staged copies to delete. Each method is proved to compute
    the matching function of `Conversion`, about which the properties are stated. */
module Extraction {
  import opened Assets
  import opened Paths
  import opened Host
  import Conversion
  import DeviceService

  class Extractor {
    var saveImagesAs: ImageExtension
    var filesToDelete: seq<string>
    /** AppDomain.CurrentDomain.BaseDirectory */
    const baseDirectory: string
    const host: FileHost
    const service: DeviceService.GraphicsDeviceService

    /** What a conversion changes: the files, the trace and the staged copies. */
    ghost function State(): Conversion.Pipeline
      reads this, host
    {
      Conversion.Pipeline(host.paths, host.trace, filesToDelete)
    }

    /** The set-up half of the constructor: images are saved as PNG, nothing is staged,
        and one reference to the shared device service is taken for the size of the
        hidden form's client area. */
    constructor (host: FileHost, service: DeviceService.GraphicsDeviceService, baseDirectory: string,
                 formWidth: int, formHeight: int)
      modifies service
      ensures this.host == host && this.service == service && this.baseDirectory == baseDirectory
      ensures saveImagesAs == Png && filesToDelete == []
      ensures service.State() == DeviceService.AddRefStep(old(service.State()), formWidth, formHeight).0
    {
      saveImagesAs := Png;
      filesToDelete := [];
      this.host := host;
      this.service := service;
      this.baseDirectory := baseDirectory;
      new;
      var _ := service.AddRef(formWidth, formHeight);
    }

    /** The foreach loop of the constructor over the entries, in order. */
    method ConvertFiles(files: seq<Entry>) returns (outcome: Conversion.Outcome)
      modifies this, host
      ensures var r := Conversion.ConvertFiles(old(State()), host.oracles, baseDirectory, saveImagesAs,
                                               service.graphicsDevice.Some?, files, |files|);
        State() == r.0 && outcome == r.1
      ensures saveImagesAs == old(saveImagesAs)
    {
      ghost var start := State();
      var device := service.graphicsDevice;
      var i := 0;
      while i < |files|
        invariant 0 <= i <= |files|
        invariant saveImagesAs == old(saveImagesAs)
        invariant var r := Conversion.ConvertFiles(start, host.oracles, baseDirectory, saveImagesAs, device.Some?, files, i);
          State() == r.0 && r.1 == Conversion.Completed
      {
        Conversion.LoopStep(start, host.oracles, baseDirectory, saveImagesAs, device.Some?, files, i);
        var thrown := ConvertEntry(files[i], device);
        if thrown.Some? {
          outcome := Conversion.Threw(i, thrown.value);
          Conversion.StoppedLoopStaysStopped(start, host.oracles, baseDirectory, saveImagesAs,
                                             device.Some?, files, i + 1, |files|);
          return;
        }
        i := i + 1;
      }
      outcome := Conversion.Completed;
    }

    /** The body of that loop for one entry: the FileInfo constructor, then nothing
        unless the file exists with the ".xnb" extension, then the entry's kind decides;
        `thrown` is the exception that escapes, if any. */
    method ConvertEntry(entry: Entry, device: Option<DeviceService.Device>) returns (thrown: Option<Conversion.Error>)
      modifies this, host
      ensures var e := Conversion.ConvertEntry(old(State()), host.oracles, baseDirectory, saveImagesAs,
                                               device.Some?, entry);
        && (e.Throws? ==> thrown == Some(e.error) && State() == old(State()))
        && (e.Converted? ==> thrown.None? && State() == e.next)
      ensures saveImagesAs == old(saveImagesAs)
    {
      thrown := None;
      var accepted := host.NewFileInfo(entry.path);
      if !accepted {
        thrown := Some(Conversion.InvalidPath);
        return;
      }
      var present := host.FileExists(entry.path);
      if present && HasXnbExtension(entry.path) {
        match entry.kind {
          case Texture2D =>
            ConvertTexture2DToPng(entry.path);
          case TextureCube =>
            ConvertTextureCubeToPng(entry.path, device);
          case MusicOrSound =>
            thrown := Some(Conversion.NotImplemented);
        }
      }
    }

    /** ConvertTexture2DToPng; every exception ends the routine and is swallowed. */
    method ConvertTexture2DToPng(file: string)
      modifies this, host
      ensures State() == Conversion.ConvertTexture2D(old(State()), host.oracles, baseDirectory, saveImagesAs, file)
      ensures saveImagesAs == old(saveImagesAs)
    {
      var copy := StagedPath(baseDirectory, file);
      var copied := host.CopyTo(file, copy);
      if !copied {
        return;
      }
      filesToDelete := filesToDelete + [copy];
      var texture := host.LoadTexture(copy);
      if texture.None? {
        return;
      }
      var fileToSave := TextureTarget(file, saveImagesAs);
      var _ := SaveWithConfirm(texture.value, fileToSave);
    }

    /** ConvertTextureCubeToPng: the six faces in order, each copied through one shared
        buffer of size * size pixels; the first write that throws ends the routine. */
    method ConvertTextureCubeToPng(file: string, device: Option<DeviceService.Device>)
      modifies this, host
      ensures State() == Conversion.ConvertTextureCube(old(State()), host.oracles, baseDirectory, saveImagesAs,
                                                       device.Some?, file)
      ensures saveImagesAs == old(saveImagesAs)
    {
      var copy := StagedPath(baseDirectory, file);
      var copied := host.CopyTo(file, copy);
      if !copied {
        return;
      }
      filesToDelete := filesToDelete + [copy];
      var cube := host.LoadCube(copy);
      if cube.None? || device.None? {
        return;
      }
      var size := cube.value;
      var data := new int[size * size];
      ghost var start := State();
      ghost var targets := FaceTargets(file, saveImagesAs, 6);
      ghost var images := Conversion.FaceImages(host.oracles, copy, size);
      var face := 0;
      var written := true;
      while face < 6 && written
        invariant 0 <= face <= 6
        invariant data.Length == size * size
        invariant saveImagesAs == old(saveImagesAs)
        invariant (State(), written) == Conversion.SaveFaces(start, host.oracles, targets, images, saveImagesAs, face)
      {
        host.GetData(copy, face, data);
        var texture := Image(size, size, data[..]);
        assert texture == images[face];
        var fileToSave := FaceTarget(file, face, saveImagesAs);
        assert fileToSave == targets[face];
        written := SaveWithConfirm(texture, fileToSave);
        face := face + 1;
      }
      if !written {
        Conversion.FailureSkipsRemainingFaces(start, host.oracles, targets, images, saveImagesAs, face, 6);
      }
    }

    /** The overwrite dialog around SaveImage; `ok` is false when the write threw. */
    method SaveWithConfirm(texture: Image, fileToSave: string) returns (ok: bool)
      modifies host
      ensures (State(), ok) == Conversion.SaveWithConfirm(old(State()), host.oracles, fileToSave, saveImagesAs, texture)
    {
      var present := host.TargetExists(fileToSave);
      if present {
        var yes := host.Confirm(fileToSave);
        if yes {
          ok := SaveImage(texture, fileToSave);
        } else {
          ok := true;
        }
      } else {
        ok := SaveImage(texture, fileToSave);
      }
    }

    /** SaveImage: File.Create, then the encoder chosen by SaveImagesAs. */
    method SaveImage(texture: Image, filePath: string) returns (ok: bool)
      modifies host
      ensures (State(), ok) == Conversion.SaveImage(old(State()), host.oracles, filePath, saveImagesAs, texture)
    {
      if saveImagesAs == Png {
        ok := host.Create(filePath, Png, texture);
      } else {
        ok := host.Create(filePath, Jpeg, texture);
      }
    }
  }
}
