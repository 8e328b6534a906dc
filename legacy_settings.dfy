/**
 * The earlier settings loader (`codeDetection/src/settings.cpp`; its class is
 * declared in `codeDetection/include/arucoSettings.hpp`, and the header the
 * file includes declares the same fields under the name `Settings`): a path
 * is accepted when `.yml` or `.xml` occurs anywhere in it, the file is read
 * without an open check (an unopened file reads as two empty matrices), and
 * `OK`, true by default in both headers, is cleared on each failure.
 */
module LegacySettings {
  import opened Text
  import CameraSettingsLoader

  type StoredFile = CameraSettingsLoader.StoredFile

  predicate PathAccepted(filepath: string)
  {
    Find(filepath, ".yml").Some? || Find(filepath, ".xml").Some?
  }

  /** A path is accepted exactly when `.yml` or `.xml` occurs somewhere in it. */
  lemma PathAcceptedIff(filepath: string)
    ensures PathAccepted(filepath) <==>
      exists i :: 0 <= i && (OccursAt(filepath, ".yml", i) || OccursAt(filepath, ".xml", i))
  {
    FindSpec(filepath, ".yml");
    FindSpec(filepath, ".xml");
  }

  /** What `fs[key] >> m` yields: the stored entries when the file opened, nothing otherwise. */
  function ReadCameraMatrix(stored: StoredFile): seq<real>
  {
    if stored.opens then stored.cameraMatrix else []
  }

  function ReadDistortionCoeffs(stored: StoredFile): seq<real>
  {
    if stored.opens then stored.distortionCoeffs else []
  }

  /** The `OK` flag the constructor leaves for a path and the file found there. */
  predicate LoadedOK(filepath: string, stored: StoredFile)
  {
    PathAccepted(filepath) && |ReadCameraMatrix(stored)| > 0 && |ReadDistortionCoeffs(stored)| > 0
  }

  class CameraSettings {
    var OK: bool
    var cameraMatrix: seq<real>
    var distortionCoeffs: seq<real>

    /** The fields start at their declared defaults: `OK = true` and two empty matrices. */
    constructor (filepath: string, stored: StoredFile)
      ensures OK == LoadedOK(filepath, stored)
      ensures !PathAccepted(filepath) ==> cameraMatrix == [] && distortionCoeffs == []
      ensures PathAccepted(filepath) ==>
        cameraMatrix == ReadCameraMatrix(stored) && distortionCoeffs == ReadDistortionCoeffs(stored)
    {
      OK := true;
      cameraMatrix := [];
      distortionCoeffs := [];
      new;
      if !PathAccepted(filepath) {
        OK := false;
        return;
      }
      cameraMatrix := ReadCameraMatrix(stored);
      distortionCoeffs := ReadDistortionCoeffs(stored);
      if |cameraMatrix| == 0 || |distortionCoeffs| == 0 {
        OK := false;
      }
    }
  }

  /** A file that does not open never yields valid settings, though no open check is made. */
  lemma UnopenedIsInvalid(filepath: string, stored: StoredFile)
    requires !stored.opens
    ensures !LoadedOK(filepath, stored)
  {
  }

  /** Every name the later revision accepts with a `.yml` or `.xml` suffix is accepted here too. */
  lemma SuffixAcceptedHere(filepath: string)
    requires EndsWith(filepath, ".yml") || EndsWith(filepath, ".xml")
    ensures PathAccepted(filepath)
  {
    EndsWithIff(filepath, ".yml");
    EndsWithIff(filepath, ".xml");
    FindSpec(filepath, ".yml");
    FindSpec(filepath, ".xml");
    if EndsWith(filepath, ".yml") {
      assert OccursAt(filepath, ".yml", |filepath| - 4);
    } else {
      assert OccursAt(filepath, ".xml", |filepath| - 4);
    }
  }

  /** `x.json` passes the later check and fails this one, although this revision's error message lists `.json`. */
  lemma JsonRejectedHere()
    ensures CameraSettingsLoader.FilenameIsValid("x.json") && !PathAccepted("x.json")
  {
    var json := "x.json";
    assert json[1] == '.' && json[2] == 'j' && json[3] == 's';
    FindSpec(json, ".yml");
    FindSpec(json, ".xml");
    forall i | 0 <= i
      ensures !OccursAt(json, ".yml", i) && !OccursAt(json, ".xml", i)
    {
      if i + 4 <= |json| {
        assert json[i..i + 4][1] == json[i + 1];
        assert json[i + 1] != 'y' && json[i + 1] != 'x';
      }
    }
    EndsWithIff(json, ".json");
    assert json[1..] == ".json";
  }

  /** `x.yml.bak`, with `.yml` in the middle, passes this check and fails the later one. */
  lemma MidNameAcceptedHere()
    ensures PathAccepted("x.yml.bak") && !CameraSettingsLoader.FilenameIsValid("x.yml.bak")
  {
    var bak := "x.yml.bak";
    FindSpec(bak, ".yml");
    assert bak[1..5] == ".yml";
    assert OccursAt(bak, ".yml", 1);
    EndsWithIff(bak, ".yml");
    EndsWithIff(bak, ".xml");
    EndsWithIff(bak, ".json");
    assert bak[5..][1] == 'b';
    assert bak[4..][1] == '.';
  }

  /** The two revisions accept different sets of names, in both directions. */
  lemma RevisionsDisagree()
    ensures CameraSettingsLoader.FilenameIsValid("x.json") && !PathAccepted("x.json")
    ensures PathAccepted("x.yml.bak") && !CameraSettingsLoader.FilenameIsValid("x.yml.bak")
  {
    JsonRejectedHere();
    MidNameAcceptedHere();
  }
}
