/**
 * The camera-settings loader (`codeDetection/src/cameraSettings.cpp`): a
 * settings file is accepted when its name ends in an extension OpenCV's
 * FileStorage reads, and the settings are valid only when both matrices read
 * from it are non-empty. The file system is a map from paths to files: a
 * `StoredFile` says whether the path opens and what its two entries hold (a
 * cv::Mat is modelled by its entries; a missing entry reads as empty).
 */
module CameraSettingsLoader {
  import opened Text

  const SUPPORTED_EXTENSIONS: seq<string> := [".yml", ".xml", ".json"]

  datatype StoredFile = StoredFile(opens: bool, cameraMatrix: seq<real>, distortionCoeffs: seq<real>)

  predicate FilenameIsValid(filename: string)
  {
    EndsWith(filename, ".yml") || EndsWith(filename, ".xml") || EndsWith(filename, ".json")
  }

  /** A name is valid exactly when its last characters are one of the supported extensions. */
  lemma FilenameIsValidIff(filename: string)
    ensures FilenameIsValid(filename) <==>
      exists k :: 0 <= k < |SUPPORTED_EXTENSIONS| && |SUPPORTED_EXTENSIONS[k]| <= |filename|
        && filename[|filename| - |SUPPORTED_EXTENSIONS[k]|..] == SUPPORTED_EXTENSIONS[k]
  {
    EndsWithIff(filename, ".yml");
    EndsWithIff(filename, ".xml");
    EndsWithIff(filename, ".json");
    assert SUPPORTED_EXTENSIONS[0] == ".yml" && SUPPORTED_EXTENSIONS[1] == ".xml" && SUPPORTED_EXTENSIONS[2] == ".json";
  }

  /** The files on disk, by path. */
  type FileSystem = map<string, StoredFile>

  /** The file found at a path; where there is none, the path does not open. */
  function FileAt(files: FileSystem, path: string): StoredFile
  {
    if path in files then files[path] else StoredFile(false, [], [])
  }

  /** What `createFile` reports: an invalid name, a file it could not open, or nothing. */
  datatype CreateOutcome = InvalidPath | OpenFailed | Written

  datatype Created = Created(outcome: CreateOutcome, files: FileSystem)

  /**
   * `createFile`: an invalid name returns before any file is opened; a file
   * that cannot be opened for writing is reported; otherwise the file at the
   * path is replaced by one holding both matrices under their keys. Whether
   * the path opens for writing is an input.
   */
  function CreateFile(files: FileSystem, filepath: string, opensForWriting: bool,
                      camMatrix: seq<real>, distCoeffs: seq<real>): (r: Created)
    ensures r.outcome == InvalidPath <==> !FilenameIsValid(filepath)
    ensures r.outcome == OpenFailed <==> FilenameIsValid(filepath) && !opensForWriting
    ensures r.outcome != Written ==> r.files == files
    ensures r.outcome == Written ==> FileAt(r.files, filepath) == StoredFile(true, camMatrix, distCoeffs)
    ensures r.files.Keys <= files.Keys + {filepath}
    ensures forall p :: p != filepath ==> FileAt(r.files, p) == FileAt(files, p)
  {
    if !FilenameIsValid(filepath) then Created(InvalidPath, files)
    else if !opensForWriting then Created(OpenFailed, files)
    else Created(Written, files[filepath := StoredFile(true, camMatrix, distCoeffs)])
  }

  /** The `OK` flag the constructor leaves for a path and the file found there. */
  predicate LoadedOK(filepath: string, stored: StoredFile)
  {
    FilenameIsValid(filepath) && stored.opens && |stored.cameraMatrix| > 0 && |stored.distortionCoeffs| > 0
  }

  class CameraSettings {
    var OK: bool
    var cameraMatrix: seq<real>
    var distortionCoeffs: seq<real>

    /** The fields start at their declared defaults: `OK = false` and two empty matrices. */
    constructor (filepath: string, files: FileSystem)
      ensures OK == LoadedOK(filepath, FileAt(files, filepath))
      ensures !FilenameIsValid(filepath) || !FileAt(files, filepath).opens ==>
        cameraMatrix == [] && distortionCoeffs == []
      ensures FilenameIsValid(filepath) && FileAt(files, filepath).opens ==>
        cameraMatrix == FileAt(files, filepath).cameraMatrix
        && distortionCoeffs == FileAt(files, filepath).distortionCoeffs
    {
      OK := false;
      cameraMatrix := [];
      distortionCoeffs := [];
      new;
      if !FilenameIsValid(filepath) {
        return;
      }
      var stored := FileAt(files, filepath);
      if !stored.opens {
        return;
      }
      cameraMatrix := stored.cameraMatrix;
      distortionCoeffs := stored.distortionCoeffs;
      if |cameraMatrix| == 0 || |distortionCoeffs| == 0 {
        OK := false;
        return;
      }
      OK := true;
    }
  }

  /**
   * Settings written by `createFile` load back as valid exactly when both
   * matrices written were non-empty; a name the loader would refuse, or a
   * file that did not open, leaves what loads from the path as it was.
   */
  lemma CreateThenLoad(files: FileSystem, filepath: string, opensForWriting: bool,
                       camMatrix: seq<real>, distCoeffs: seq<real>)
    ensures CreateFile(files, filepath, opensForWriting, camMatrix, distCoeffs).outcome == Written <==>
      FilenameIsValid(filepath) && opensForWriting
    ensures CreateFile(files, filepath, opensForWriting, camMatrix, distCoeffs).outcome == Written ==>
      (LoadedOK(filepath, FileAt(CreateFile(files, filepath, opensForWriting, camMatrix, distCoeffs).files, filepath))
       <==> |camMatrix| > 0 && |distCoeffs| > 0)
    ensures CreateFile(files, filepath, opensForWriting, camMatrix, distCoeffs).outcome != Written ==>
      LoadedOK(filepath, FileAt(CreateFile(files, filepath, opensForWriting, camMatrix, distCoeffs).files, filepath))
      == LoadedOK(filepath, FileAt(files, filepath))
  {
  }
}
