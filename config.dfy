/** The MmapsFolder normalisation of Program.LoadConfigFile: the mesh-data
    folder read from the configuration gets a trailing "/" unless it already
    ends with "/" or "\". */
module Config {
  import opened Strings

  /** The folder ends with a path separator (ordinal comparison). */
  predicate EndsWithSeparator(folder: string)
  {
    EndsWith(folder, "/") || EndsWith(folder, "\\")
  }

  /** The folder as LoadConfigFile leaves it. */
  function NormalizedFolder(folder: string): (r: string)
    ensures EndsWithSeparator(r)
    ensures EndsWithSeparator(folder) ==> r == folder
    ensures !EndsWithSeparator(folder) ==> r == folder + "/"
    ensures |folder| <= |r| <= |folder| + 1 && r[..|folder|] == folder
  {
    if EndsWithSeparator(folder) then folder else folder + "/"
  }

  /** Normalising twice is normalising once. */
  lemma NormalizedFolderIdempotent(folder: string)
    ensures NormalizedFolder(NormalizedFolder(folder)) == NormalizedFolder(folder)
  {
  }

  /** The settings object LoadConfigFile fills in (Settings). */
  class Settings {
    var ipAddress: string
    var port: int
    var mmapsFolder: string
    var preloadMaps: seq<int>

    constructor (ipAddress: string, port: int, mmapsFolder: string, preloadMaps: seq<int>)
      ensures this.ipAddress == ipAddress && this.port == port
      ensures this.mmapsFolder == mmapsFolder && this.preloadMaps == preloadMaps
    {
      this.ipAddress := ipAddress;
      this.port := port;
      this.mmapsFolder := mmapsFolder;
      this.preloadMaps := preloadMaps;
    }

    /** The in-place update of settings.MmapsFolder; no other field changes. */
    method NormalizeMmapsFolder()
      modifies this`mmapsFolder
      ensures mmapsFolder == NormalizedFolder(old(mmapsFolder))
      ensures EndsWithSeparator(mmapsFolder)
    {
      if !EndsWith(mmapsFolder, "/") && !EndsWith(mmapsFolder, "\\") {
        mmapsFolder := mmapsFolder + "/";
      }
    }
  }
}
