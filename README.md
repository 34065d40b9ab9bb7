# XNB Extractor — a Dafny model of the conversion pipeline and the shared graphics device

XNB Extractor turns XNA content containers (`.xnb` files) back into images. An
`Extractor` is given a batch of `(path, AssetType)` entries and walks it in order:

- An entry that does not exist, or whose extension is not `.xnb` (in any case), is skipped.
- A `Texture2D` entry is copied to `<BaseDirectory>/<name>.tmp.xnb` and that copy is
  recorded in `filesToDelete`. The copy is decoded, and the image is written next to the
  input under the input's full path with every `.xnb` replaced by `.png` or `.jpeg`.
- A `TextureCube` entry is staged the same way. Its six faces are then written in order
  under `_0.<ext>` … `_5.<ext>`, through one shared buffer of `size * size` pixels.
- An existing target is written only after the user answers Yes to "replace it?". A
  missing one is written without asking.
- Each conversion is wrapped in a try/catch that swallows every exception, so a failure
  ends only that entry (for a cube, the remaining faces).
- Two exceptions are thrown outside any try, and either ends the whole batch:
  - `new FileInfo(path)` throws for a path it refuses: the empty path, or characters or a length the runtime rejects;
  - an existing `.xnb` entry of kind `MusicOrSound` throws `NotImplementedException`.

`GraphicsDeviceService` is the reference-counted singleton that owns the one graphics
device. `AddRef` creates the instance and device when the count becomes 1. `Release`
disposes or drops the device when the count reaches 0. `ResetDevice` grows the back
buffer to the largest size asked for. The static `GraphicsProfile` setter recreates the
device when the new profile differs from the device's.

## Modules

- `Assets`: the asset kinds, the image formats, a decoded image, a batch entry and `Option`.
- `Paths`: the path and name functions the pipeline relies on:
  - `string.Replace` (ordinal, left to right, non-overlapping);
  - ASCII `ToLower`;
  - `FileInfo.Name` and `FileInfo.Extension`, scanning back to a `\`, `/` or `:`;
  - `Path.Combine`;
  - the staged path, and the single and per-face targets.
- `Host`: class `FileHost`.
  - The file system is the set of existing paths.
  - What the extractor cannot decide is an oracle: whether a copy or a write throws, what a decode yields, the face pixels, the user's answer.
  - Every decode, target probe, question and write is appended to a trace.
- `Conversion`: what one iteration, one conversion and the whole loop do, as functions of `Pipeline` (paths, trace, staged copies). The lemmas state the pipeline's properties.
- `Extraction`: class `Extractor`.
  - Its fields are `saveImagesAs` and `filesToDelete`, plus the host and the device service.
  - Its methods are the loop and the two conversion routines, with `while` loops over the entries and over the faces.
  - Each method is proved to compute the matching `Conversion` function.
- `DeviceService`: the static fields of `GraphicsDeviceService` as a class whose methods are proved against step functions on a `Registry` value.
  - `Consistent` is the invariant they keep: a device exists exactly while the count is at least 1. It is never a disposed one, it carries the stored profile and size, and the size is at least 1 by 1.
  - The lemmas cover sequences of calls.

The source's `Extractor` constructor both takes the device reference and runs the loop.
Here the Dafny constructor does the set-up (`saveImagesAs := Png`, an `AddRef` for the
hidden form's client size) and `Extractor.ConvertFiles` is the loop. Its outcome
`Threw(i, error)` stands for the exception the constructor throws at entry `i`.

`SaveImagesAs` is an auto-property whose default is `Png`, and the source runs the loop
inside the constructor, before any caller can set it. So the source always writes PNG, and
its JPEG branches (XNBExtractor/Extractor.cs:90, 133 and 163-170) cannot be reached. The
model keeps `saveImagesAs` a field and states every property for both formats.

Facts about the code that the model keeps:

- No code in the pipeline deletes the staged copies: `filesToDelete` only grows, and nothing is purged.
- `Release` has no guard, so the count can go below 0.
- An `AddRef` that takes the count from 0 to 1 rebuilds the back-buffer size from its arguments. The size only grows between such re-acquisitions, not across them (`DeviceService.ReacquireCanShrink`).
- A `MusicOrSound` entry stops the batch only when the loop reaches it, and only if the file exists and has the `.xnb` extension. Earlier entries are converted first.
- The staged name is the whole file name with `.tmp.xnb` appended (`a.xnb.tmp.xnb`), not a `.tmp` marker inserted before the extension.
- The target replaces every lower-case `.xnb` anywhere in the full path, not the extension. A directory is renamed too: `d.xnb\a.xnb` is written to `d.png\a.png`, inside a different directory (`Paths.XnbDirectoryIsRenamed`). An input named `A.XNB` passes the extension test, but it is its own target (`Conversion.SelfTargetAsksToReplaceInput`).
- The profile setter stores a new profile even when there is no device.

## Model

| member | source | states |
|---|---|---|
| Paths.ReplaceAll | XNBExtractor/Extractor.cs:91 | `string.Replace` by a replacement as long as the pattern keeps the length, and by a longer one never shortens the string; its value is fixed by `FirstOccurrenceReplaced` and `ReplaceTrailingXnb` |
| Paths.FirstOccurrenceReplaced | XNBExtractor/Extractor.cs:91 | the first occurrence of a four-character pattern such as `.xnb`, wherever it stands, is replaced in place and the scan resumes after it: `a + x + b` becomes `a + rep` followed by `b` replaced in turn |
| Paths.XnbDirectoryIsRenamed | XNBExtractor/Extractor.cs:90-91 | `d.xnb\a.xnb` is written to `d.<ext>\a.<ext>`: the directory's `.xnb` is replaced as well as the extension |
| Paths.ReplaceAllLength | XNBExtractor/Extractor.cs:91 | `string.Replace`: a string without the pattern comes back unchanged; a replacement at least as long as the pattern never shortens the string, and a longer one lengthens it when the pattern occurs |
| Paths.Lower | XNBExtractor/Extractor.cs:50 | lower-casing maps each ASCII capital to its lower-case letter (32 code points on) and leaves every other character as it is |
| Paths.FileName | XNBExtractor/Extractor.cs:84 | `FileInfo.Name` is never longer than the path |
| Paths.FileNameShape | XNBExtractor/Extractor.cs:84 | `FileInfo.Name` is a suffix of the path containing no separator |
| Paths.FileNameIsMaximal | XNBExtractor/Extractor.cs:84 | the name reaches back to the last separator: the character before it, if any, is one |
| Paths.ExtensionScan | XNBExtractor/Extractor.cs:50 | `FileInfo.Extension` is empty or a suffix that starts with `.`, has at least one more character, and holds no other `.` and no separator |
| Paths.ExtensionOfXnbSuffix | XNBExtractor/Extractor.cs:50 | a path ending in `.` followed by `x`, `n`, `b` in any case has exactly those four characters as its extension |
| Paths.XnbExtensionIsSuffix | XNBExtractor/Extractor.cs:50 | the extension test passes if and only if the last four characters, lower-cased, are `.xnb` |
| Paths.XnbExtensionIgnoresCase | XNBExtractor/Extractor.cs:50 | two paths equal up to case pass or fail the extension test together |
| Paths.CombineShape | XNBExtractor/Extractor.cs:84 | `Path.Combine` ends with the name, and starts with the directory when the name is not rooted |
| Paths.StagedPathShape | XNBExtractor/Extractor.cs:84-85 | the staged copy lies in the base directory and is named `<input name>.tmp.xnb` |
| Paths.StagedPathIsXnb | XNBExtractor/Extractor.cs:84-85 | the staged copy itself has the `.xnb` extension |
| Paths.ReplaceTrailingXnb | XNBExtractor/Extractor.cs:91 | replacing every `.xnb` in a path that ends in `.xnb` replaces that last one, after whatever the rest of the path becomes |
| Paths.ReplaceTrailing | XNBExtractor/Extractor.cs:91 | the same for any four-character pattern whose first character does not recur in it, as with `.xnb`: a trailing occurrence cannot be swallowed by an earlier one |
| Paths.TextureTarget | XNBExtractor/Extractor.cs:90-91 | the single-texture target is never shorter than the input, and as long as it for PNG |
| Paths.TextureTargetIsInputIff | XNBExtractor/Extractor.cs:90-91 | the single-texture target equals the input path if and only if the path holds no lower-case `.xnb` |
| Paths.TextureTargetOfPlainName | XNBExtractor/Extractor.cs:90-91 | for `<stem>.xnb` with no other `.xnb`, the target is `<stem>.png` or `<stem>.jpeg` by the format |
| Paths.FaceSuffix | XNBExtractor/Extractor.cs:133-134 | the replacement for face i is `_i.` and the extension, two characters longer than the single-texture one |
| Paths.FaceTarget | XNBExtractor/Extractor.cs:133-134 | a face target is never shorter than the input |
| Paths.FaceTargetOfPlainName | XNBExtractor/Extractor.cs:133-134 | for `<stem>.xnb` with no other `.xnb`, face i is written to `<stem>_i.<ext>` |
| Paths.FaceTargetsDistinct | XNBExtractor/Extractor.cs:128-134 | the six face targets are pairwise different when the path holds `.xnb`, and all equal to the input when it does not |
| Host.FileHost.NewFileInfo | XNBExtractor/Extractor.cs:46 | `new FileInfo(path)` succeeds exactly when the path is not empty and not one the runtime refuses |
| Host.FileHost.FileExists | XNBExtractor/Extractor.cs:46-48 | `FileInfo.Exists` holds exactly for existing paths |
| Host.FileHost.CopyTo | XNBExtractor/Extractor.cs:84 | `CopyTo` without overwrite succeeds exactly when the destination is missing and the copy does not fail, and then adds the destination |
| Host.FileHost.LoadTexture | XNBExtractor/Extractor.cs:88 | the decoder's answer for the staged path, recorded as a load |
| Host.FileHost.LoadCube | XNBExtractor/Extractor.cs:123 | the cube decoder's edge size for the staged path, recorded as a load |
| Host.FileHost.GetData | XNBExtractor/Extractor.cs:130 | the whole buffer is refilled with the pixels of the given face |
| Host.FileHost.TargetExists | XNBExtractor/Extractor.cs:93 | `File.Exists` on a target answers membership and records the probe |
| Host.FileHost.Confirm | XNBExtractor/Extractor.cs:95-97 | the dialog returns the user's answer and records question and answer |
| Host.FileHost.Create | XNBExtractor/Extractor.cs:161-170 | `File.Create` plus the encoder either adds the file and records the image in the chosen format, or records a failed write and adds nothing |
| Conversion.SaveImage | XNBExtractor/Extractor.cs:159-174 | one write: the file is added and the image recorded with the configured format exactly when the write does not throw; nothing is staged |
| Conversion.SaveWithConfirm | XNBExtractor/Extractor.cs:93-105 | a write reported as thrown is one whose target fails to be created |
| Conversion.OverwriteRule | XNBExtractor/Extractor.cs:93-105 | the user is asked exactly when the target exists; the image is written exactly when the target is missing or the answer is Yes, and the write does not throw; a No leaves the files as they were |
| Conversion.WriteTouchesOnlyTarget | XNBExtractor/Extractor.cs:93-105 | one write probes exactly its target, every event it adds is about that target, nothing is staged and nothing is lost |
| Conversion.Stage | XNBExtractor/Extractor.cs:84-86 | staging succeeds exactly when the staged path does not yet exist and the copy does not fail; only then is the copy added to the files and to the deletion list |
| Conversion.ConvertTexture2D | XNBExtractor/Extractor.cs:80-112 | converting a single texture never removes a file |
| Conversion.Texture2DStaging | XNBExtractor/Extractor.cs:84-88 | when the copy throws nothing changes at all; otherwise the copy is appended to the deletion list and decoded first; the world only grows and staged copies keep existing |
| Conversion.DecodeFailureWritesNothing | XNBExtractor/Extractor.cs:84-89 | a staged texture that fails to load adds only its staged copy, listed for deletion, and the load; nothing is written |
| Conversion.Texture2DTarget | XNBExtractor/Extractor.cs:88-105 | exactly one target, the input with `.xnb` replaced, is probed when the texture decodes, and none otherwise |
| Conversion.FaceImage | XNBExtractor/Extractor.cs:126-131 | each face image is `size` by `size` with `size * size` pixels |
| Conversion.SaveFaces | XNBExtractor/Extractor.cs:128-149 | the face loop never removes a file and lists nothing for deletion |
| Conversion.FacesExtend | XNBExtractor/Extractor.cs:128-149 | the face loop only adds to the world and stages nothing |
| Conversion.FacesInOrder | XNBExtractor/Extractor.cs:128-149 | the targets probed are the first m face targets in order, m at most n, and all n when no write threw |
| Conversion.FailedWrite | XNBExtractor/Extractor.cs:93-105 | a write that throws is one whose target fails to be created; it probed exactly that target, and the failure is its last event |
| Conversion.FacesFailure | XNBExtractor/Extractor.cs:117-155 | when a face's write throws, it is the last face probed and the failed write is the last event |
| Conversion.FacesImages | XNBExtractor/Extractor.cs:126-148 | every image the face loop writes is face k's image, written in the configured format to face k's target |
| Conversion.FaceImagesSized | XNBExtractor/Extractor.cs:126-131 | all six faces of a cube are `size` by `size` with `size * size` pixels |
| Conversion.FailureSkipsRemainingFaces | XNBExtractor/Extractor.cs:117-155 | once a face's write has thrown, later faces change nothing |
| Conversion.ConvertTextureCube | XNBExtractor/Extractor.cs:115-156 | converting a cube never removes a file |
| Conversion.CubeStaging | XNBExtractor/Extractor.cs:119-123 | staging for a cube: nothing changes when the copy throws; otherwise the copy is listed for deletion and decoded first |
| Conversion.CubeTargets | XNBExtractor/Extractor.cs:119-149 | a cube probes the targets of faces 0 .. m-1 in order, at most six, and only when it was staged, decoded and a device exists; then it probes all six unless the write of face m-1 threw, which is the last event |
| Conversion.NoFacesRun | XNBExtractor/Extractor.cs:119-125 | a cube that was not staged, not decoded or had no device probes no target |
| Conversion.FacesOutcome | XNBExtractor/Extractor.cs:128-149 | a face loop that ran probes all six targets in order, or stops after a write that threw |
| Conversion.CubeWithoutImageWritesNothing | XNBExtractor/Extractor.cs:119-125 | a staged cube that fails to load, or has no device for its face texture, adds only its staged copy, listed for deletion, and the load; nothing is written |
| Conversion.CubeImages | XNBExtractor/Extractor.cs:121-148 | every image a cube writes is decoded face k, `size` by `size` pixels, written in the configured format to the file of face k |
| Conversion.ConvertEntry | XNBExtractor/Extractor.cs:46-75 | an entry throws exactly when `FileInfo` refuses its path (`InvalidPath`) or it is an existing `.xnb` `MusicOrSound` entry (`NotImplemented`); otherwise a missing entry or one without the `.xnb` extension changes nothing |
| Conversion.EntryEffect | XNBExtractor/Extractor.cs:52-59 | one entry that does not throw only adds to the world and stages at most its own staged path |
| Conversion.SelfTargetAsksToReplaceInput | XNBExtractor/Extractor.cs:90-105 | for an input holding no lower-case `.xnb`, the user is asked to replace the input itself, and it is overwritten exactly on Yes |
| Conversion.UpperCaseNameIsItsOwnTarget | XNBExtractor/Extractor.cs:91 | `A.XNB` passes the extension test and is its own target |
| Conversion.ConvertFiles | XNBExtractor/Extractor.cs:42-76 | a run that stopped stopped at one of the entries it was given |
| Conversion.LoopStep | XNBExtractor/Extractor.cs:42-76 | one more iteration of a running loop converts the next entry, or stops at it with the exception that entry throws |
| Conversion.StoppedLoopStaysStopped | XNBExtractor/Extractor.cs:60-61 | after the exception, later entries are not looked at |
| Conversion.RunExtends | XNBExtractor/Extractor.cs:42-76 | over a run no file disappears, the trace and the deletion list only grow, and listed copies keep existing |
| Conversion.RunStagesOnlyInputs | XNBExtractor/Extractor.cs:84-86 | every copy a run lists for deletion is the staged path of one of its entries |
| Conversion.ExceptionStopsTheLoop | XNBExtractor/Extractor.cs:42-61 | a stopped run stopped at entry k, after the entries before it had all been converted, and nothing after it happened; k's path was refused exactly when the error is `InvalidPath`, and a `NotImplemented` entry is an existing `.xnb` `MusicOrSound` one |
| Conversion.NoAudioCompletes | XNBExtractor/Extractor.cs:42-76 | without `MusicOrSound` entries and refused paths the loop always reaches the end, whatever the copies, decodes, answers and writes do |
| Conversion.EmptyPathEndsTheBatch | XNBExtractor/Extractor.cs:46 | a batch whose first path is empty stops at entry 0 with `InvalidPath` and changes nothing |
| Extraction.Extractor.constructor | XNBExtractor/Extractor.cs:34-41 | images are saved as PNG, nothing is staged, and one device reference is taken |
| Extraction.Extractor.ConvertFiles | XNBExtractor/Extractor.cs:42-76 | the loop computes `Conversion.ConvertFiles` over all entries, with the device present or not as the service holds it |
| Extraction.Extractor.ConvertEntry | XNBExtractor/Extractor.cs:46-75 | the body of the loop for one entry computes `Conversion.ConvertEntry`: it reports the exception exactly when the entry throws, and then changes nothing |
| Extraction.Extractor.ConvertTexture2DToPng | XNBExtractor/Extractor.cs:80-112 | computes `Conversion.ConvertTexture2D` |
| Extraction.Extractor.ConvertTextureCubeToPng | XNBExtractor/Extractor.cs:115-156 | the face loop over the shared buffer computes `Conversion.ConvertTextureCube` |
| Extraction.Extractor.SaveWithConfirm | XNBExtractor/Extractor.cs:93-105 | computes `Conversion.SaveWithConfirm`, which `OverwriteRule` describes |
| Extraction.Extractor.SaveImage | XNBExtractor/Extractor.cs:159-174 | computes `Conversion.SaveImage`, choosing the encoder by `saveImagesAs` |
| DeviceService.InitialIsConsistent | XNBExtractor/GraphicsDeviceService.cs:162-165 | the statics as initialised satisfy the invariant |
| DeviceService.CreateDevice | XNBExtractor/GraphicsDeviceService.cs:98-100 | a new device has a fresh id, the stored profile and the stored size, and is not disposed |
| DeviceService.ConstructStep | XNBExtractor/GraphicsDeviceService.cs:85-101 | construction sets each dimension to the request, raised to 1 when it is below, creates a new device with the stored profile, records exactly its `Created` event, and makes a new instance |
| DeviceService.AddRefStep | XNBExtractor/GraphicsDeviceService.cs:107-120 | the count rises by exactly one; an instance is constructed only when it becomes 1, and otherwise nothing else changes; the singleton is returned |
| DeviceService.ReleaseStep | XNBExtractor/GraphicsDeviceService.cs:126-141 | the count falls by exactly one; at 0 the device is cleared, after DeviceDisposing and disposal when `disposing` holds; above or below 0 nothing else changes |
| DeviceService.ResetStep | XNBExtractor/GraphicsDeviceService.cs:149-159 | DeviceResetting first; each dimension becomes the larger of the stored and the requested one; the device is reset to it and DeviceReset raised last; a null device or null parameters make it fail |
| DeviceService.SetProfileStep | XNBExtractor/GraphicsDeviceService.cs:57-75 | the same value changes nothing; a new value is always stored; a device is created only when one exists with a different profile |
| DeviceService.StepPreservesConsistent | XNBExtractor/GraphicsDeviceService.cs:57-159 | every call keeps the invariant |
| DeviceService.RunPreservesConsistent | XNBExtractor/GraphicsDeviceService.cs:57-159 | any sequence of calls keeps the invariant |
| DeviceService.CountTracksCalls | XNBExtractor/GraphicsDeviceService.cs:107-141 | the count is the starting count plus the AddRef calls minus the Release calls |
| DeviceService.BalancedCallsRestoreCount | XNBExtractor/GraphicsDeviceService.cs:107-141 | N AddRef calls followed by N Release calls restore the count |
| DeviceService.SizeNeverShrinksWithoutAddRef | XNBExtractor/GraphicsDeviceService.cs:107-159 | in a run where every AddRef finds a reference already held (so none constructs), the stored size never decreases in either dimension |
| DeviceService.ResetCoversRequest | XNBExtractor/GraphicsDeviceService.cs:153-154 | after a reset the size is at least the request and at least the old size |
| DeviceService.ReacquireCanShrink | XNBExtractor/GraphicsDeviceService.cs:87-90 | a 0 to 1 AddRef rebuilds the size from its arguments, so 800 by 600 becomes 10 by 10 |
| DeviceService.AddRefSharesSingleton | XNBExtractor/GraphicsDeviceService.cs:111-119 | while a reference is held, AddRef returns the existing singleton and creates no device |
| DeviceService.NewProfileRecreatesDevice | XNBExtractor/GraphicsDeviceService.cs:59-73 | with a device present, a new profile disposes it and creates one with the new profile and the same size |
| DeviceService.SameProfileTwice | XNBExtractor/GraphicsDeviceService.cs:59 | a second identical set is a no-op, so two create at most one device |
| DeviceService.LastReleaseDisposes | XNBExtractor/GraphicsDeviceService.cs:129-140 | the last release clears the device, raising DeviceDisposing and then disposing it only when `disposing` holds |
| DeviceService.GraphicsDeviceService.constructor | XNBExtractor/GraphicsDeviceService.cs:162-165 | the statics start null, at count 0 and the default profile |
| DeviceService.GraphicsDeviceService.Construct | XNBExtractor/GraphicsDeviceService.cs:85-101 | computes `ConstructStep` and returns the new instance |
| DeviceService.GraphicsDeviceService.NewDevice | XNBExtractor/GraphicsDeviceService.cs:70-72 | computes `CreateDevice`: a fresh device with the stored profile and size |
| DeviceService.GraphicsDeviceService.AddRef | XNBExtractor/GraphicsDeviceService.cs:107-120 | computes `AddRefStep` and keeps the invariant |
| DeviceService.GraphicsDeviceService.Release | XNBExtractor/GraphicsDeviceService.cs:126-141 | computes `ReleaseStep` and keeps the invariant |
| DeviceService.GraphicsDeviceService.ResetDevice | XNBExtractor/GraphicsDeviceService.cs:149-159 | computes `ResetStep` and keeps the invariant |
| DeviceService.GraphicsDeviceService.SetGraphicsProfile | XNBExtractor/GraphicsDeviceService.cs:57-75 | computes `SetProfileStep` and keeps the invariant |

Members without a row carry no contract of their own; their properties are stated in these rows:
`Paths.Extension` in `Paths.ExtensionScan` and `Paths.ExtensionOfXnbSuffix`;
`Paths.HasXnbExtension` in `Paths.XnbExtensionIsSuffix` and `Paths.XnbExtensionIgnoresCase`;
`Paths.ToLower` in `Paths.Lower` and `Paths.XnbExtensionIgnoresCase`;
`Paths.Combine` in `Paths.CombineShape`;
`Paths.StagedPath` in `Paths.StagedPathShape` and `Paths.StagedPathIsXnb`;
`DeviceService.Consistent` in `DeviceService.InitialIsConsistent`, `DeviceService.StepPreservesConsistent` and `DeviceService.RunPreservesConsistent`;
`DeviceService.Max` in `DeviceService.ConstructStep` and `DeviceService.ResetStep`.

## Left out

- XNBExtractor.WinForms/Form1.cs (the window, pickers and drag-and-drop) is not part of this model. The members it calls on `Extractor` do not exist in the modelled class.
- XNA content decoding and image encoding are oracles: `ContentManager.Load`, `GetData`, `SetData`, `SaveAsPng` and `SaveAsJpeg`. A decoded texture is its size and pixels, and encoding is a write event tagged with the format.
- `Console.WriteLine` output and the dialog's text and caption are not modelled.
- `Interlocked`'s atomicity and any interleaving of callers are not modelled; increment and decrement are plain sequential steps.
- Window handles, the hidden `Form`, the service container and the `DeviceCreated` event are not modelled.
- The `AddRef` taken by the extractor is never paired with a `Release` in the source. The model leaves it unpaired and states no release.
- The staged copies are never deleted, as in the source: nothing models a purge.
- `FileInfo.FullName` normalisation (relative paths, `..`) is not modelled; an entry's path is taken as its full path.
- Paths.Lower: lower-cases ASCII letters only, because culture-sensitive case mapping is out of scope.
- Host.FileHost.Create: a write that throws adds no file, although `File.Create` may have left a partial file when the encoder threw. Whether a write throws is a fixed function of the target, so repeated writes to one path throw or succeed together.
- `GetData`, `SetData` and `new Texture2D` are assumed not to throw when a device exists. The cube edge size is positive.
- Creating a `GraphicsDevice` is assumed not to throw when the parameters exist.
- The batch is a sequence; the order of the source's `Dictionary` enumeration is taken to be the order of that sequence.
- DeviceService.ReleaseStep: the `NullReferenceException` of a last release with `disposing` but no device leaves the state unchanged, and the failure is not reported. `Consistent` rules that case out.
- Host.FileHost.FileExists: paths are compared exactly, while the Windows file system ignores case. `sky.png` existing does not make `Sky.png` exist here, so `Conversion.OverwriteRule` writes `Sky.png` without asking. `d1\A.xnb` and `d2\a.xnb` stage to `A.xnb.tmp.xnb` and `a.xnb.tmp.xnb` in one directory. On Windows that is one file, so the second copy throws and that entry is skipped; here both copies succeed.
- Host.FileHost.CopyTo: the destination test is exact in the same way, so a staged copy differing only in case from an existing file is not refused here.
- Host.FileHost.TargetExists: the target probe is exact in the same way.
- Host.FileHost.Confirm: the user's answer is a fixed function of the target, so repeated prompts for one path (six faces of an input with no lower-case `.xnb`, all targeting the input) always get the same answer; a user who answers differently each time is not modelled.
- The `default:` branch of the kind switch (XNBExtractor/Extractor.cs:62-64) is not modelled: `AssetType` here has only its three named values, and a C# enum holding another integer cannot be formed.
- `referenceCount` is an unbounded integer; the 32-bit wrap-around of `Interlocked.Increment` and `Interlocked.Decrement` after 2^31 unbalanced calls is not modelled.
- Extraction.Extractor.constructor: it does not run the loop, which is `Extractor.ConvertFiles`, because a Dafny constructor cannot report the exception the loop throws.
