/**
 The file names `handle` derives for a source: the download name is the URL's
 last `/`-segment; a name whose last `.`-segment is `zip` is an archive, and the
 name imported from it is the archive name with every `zip` replaced by `txt`.
 */
module Naming {
  import opened Text
  import Settings

  /** `url.split('/')[-1]`: the part of the URL after its last `/`, or all of it. */
  function FileName(url: string): (name: string)
    ensures '/' !in name && |name| <= |url| && url[|url| - |name|..] == name
    ensures |name| == |url| || url[|url| - |name| - 1] == '/'
  {
    LastSegmentIsSuffix(url, '/');
    LastSegment(url, '/')
  }

  /** `name.split('.')[-1] == 'zip'`: the name is `zip` itself or ends in `.zip`. */
  function IsArchive(name: string): (archive: bool)
    ensures archive <==> name == "zip" || (|name| >= 4 && name[|name| - 4..] == ".zip")
  {
    ZipExtensionIff(name);
    LastSegment(name, '.') == "zip"
  }

  /** The name of the file the source is imported from: for an archive, the entry
      named like the archive with every `zip` replaced by `txt`, whose extension is
      then `txt`, so that it is not an archive itself; the downloaded file otherwise. */
  function ImportName(name: string): (imported: string)
    ensures IsArchive(name) ==> LastSegment(imported, '.') == "txt" && !IsArchive(imported)
    ensures !IsArchive(name) ==> imported == name
  {
    if IsArchive(name) then
      TxtExtension(name);
      ReplaceAll(name, "zip", "txt")
    else name
  }

  /** The last `.`-segment is `zip` exactly when the name is `zip` or ends in `.zip`. */
  lemma ZipExtensionIff(name: string)
    ensures LastSegment(name, '.') == "zip" <==> name == "zip" || (|name| >= 4 && name[|name| - 4..] == ".zip")
  {
    if |name| >= 4 && name[|name| - 4..] == ".zip" {
      DotZipExtension(name);
    } else if name == "zip" {
      SplitNoSeparator(name, '.');
    } else if LastSegment(name, '.') == "zip" {
      ZipExtensionEnds(name);
    }
  }

  lemma DotZipExtension(name: string)
    requires |name| >= 4 && name[|name| - 4..] == ".zip"
    ensures LastSegment(name, '.') == "zip"
  {
    assert name == name[..|name| - 4] + ['.'] + "zip";
    LastSegmentAfter(name[..|name| - 4], '.', "zip");
  }

  lemma ZipExtensionEnds(name: string)
    requires LastSegment(name, '.') == "zip"
    ensures name == "zip" || (|name| >= 4 && name[|name| - 4..] == ".zip")
  {
    LastSegmentIsSuffix(name, '.');
    if |name| != 3 {
      assert name[|name| - 4..] == [name[|name| - 4]] + name[|name| - 3..];
    }
  }

  /** Replacing `zip` by `txt` in an archive name gives a name whose last
      `.`-segment is `txt`. */
  lemma TxtExtension(name: string)
    requires name == "zip" || (|name| >= 4 && name[|name| - 4..] == ".zip")
    ensures LastSegment(ReplaceAll(name, "zip", "txt"), '.') == "txt"
  {
    if name == "zip" {
      ReplaceZip();
      SplitNoSeparator("txt", '.');
    } else {
      var stem := name[..|name| - 4];
      assert name == stem + ".zip";
      ReplaceAroundDot(stem);
      DotTxtExtension(ReplaceAll(stem, "zip", "txt"));
    }
  }

  lemma DotTxtExtension(stem: string)
    ensures LastSegment(stem + ".txt", '.') == "txt"
  {
    assert stem + ".txt" == stem + ['.'] + "txt";
    LastSegmentAfter(stem, '.', "txt");
  }

  /** `"zip".replace("zip", "txt")` */
  lemma ReplaceZip()
    ensures ReplaceAll("zip", "zip", "txt") == "txt"
  {
    assert "zip"[3..] == "";
  }

  /** The import name of `stem.zip` is the stem with `zip` replaced, then `.txt`. */
  lemma ArchiveRenamed(stem: string)
    ensures IsArchive(stem + ".zip")
    ensures ImportName(stem + ".zip") == ReplaceAll(stem, "zip", "txt") + ".txt"
  {
    var name := stem + ".zip";
    assert name[|name| - 4..] == ".zip";
    ReplaceAroundDot(stem);
  }

  lemma ReplaceAroundDot(stem: string)
    ensures ReplaceAll(stem + ".zip", "zip", "txt") == ReplaceAll(stem, "zip", "txt") + ".txt"
  {
    assert stem + ".zip" == stem + ['.'] + "zip";
    ReplaceAllAround(stem, '.', "zip", "zip", "txt");
    ReplaceZip();
    assert ['.'] + "txt" == ".txt";
  }

  /** An archive whose stem has no `z` is imported from the stem plus `.txt`. */
  lemma PlainArchiveRenamed(stem: string)
    requires 'z' !in stem
    ensures ImportName(stem + ".zip") == stem + ".txt"
  {
    ArchiveRenamed(stem);
    ReplaceAllAbsent(stem, "zip", "txt");
  }

  /** The replacement is global: a `zip` inside the stem becomes `txt` as well, as in
      `zipcodes.zip`, imported from `txtcodes.txt`. */
  lemma ZipInStemIsRenamed(rest: string)
    requires 'z' !in rest
    ensures ImportName("zip" + rest + ".zip") == "txt" + rest + ".txt"
  {
    var stem := "zip" + rest;
    ArchiveRenamed(stem);
    assert stem[..3] == "zip" && stem[3..] == rest;
    ReplaceAllAbsent(rest, "zip", "txt");
  }

  /** The default sources are downloaded as `countryInfo.txt`, `admin1CodesASCII.txt`
      and `cities15000.zip`. */
  lemma DefaultFileNames()
    ensures FileName(Settings.Defaults().countries[0]) == "countryInfo.txt"
    ensures FileName(Settings.Defaults().regions[0]) == "admin1CodesASCII.txt"
    ensures FileName(Settings.Defaults().cities[0]) == "cities15000.zip"
  {
    DumpFileName("countryInfo.txt");
    DumpFileName("admin1CodesASCII.txt");
    DumpFileName("cities15000.zip");
  }

  /** A file in the GeoNames dump directory is saved under its own name. */
  lemma DumpFileName(file: string)
    requires '/' !in file
    ensures FileName(Settings.GeonamesDump + file) == file
  {
    var dir := "http://download.geonames.org/export/dump";
    assert Settings.GeonamesDump + file == dir + ['/'] + file;
    LastSegmentAfter(dir, '/', file);
  }

  /** Of the default files only the city source is an archive. */
  lemma DefaultArchives()
    ensures !IsArchive("countryInfo.txt") && !IsArchive("admin1CodesASCII.txt")
    ensures IsArchive("cities15000.zip")
  {
  }

  /** The default city archive is imported from `cities15000.txt`; the other default
      files are imported as they are downloaded. */
  lemma DefaultCityImportName()
    ensures ImportName("cities15000.zip") == "cities15000.txt"
    ensures ImportName("countryInfo.txt") == "countryInfo.txt"
    ensures ImportName("admin1CodesASCII.txt") == "admin1CodesASCII.txt"
  {
    PlainArchiveRenamed("cities15000");
    assert "cities15000" + ".zip" == "cities15000.zip";
    assert "cities15000" + ".txt" == "cities15000.txt";
    DefaultArchives();
  }
}
