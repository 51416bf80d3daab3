/**
 * The update script of `version.js`: for every file named in the configuration, a missing file
 * is reported and skipped, and an existing file is read, stamped with the configured version and
 * written back. The file system is a map from path to contents.
 */
module VersionScript {
  import opened VersionRewrite

  type Path = string

  /** The script's configuration: the version to write and the files to update. */
  datatype Config = Config(version: string, files: seq<Path>)

  /** The configuration the script ships with. */
  const CONFIG: Config := Config("1.0", ["index.html"])

  /** What the script reports for one configured file. */
  datatype Report = Missing(file: Path) | Updated(file: Path)

  /** The shipped version is one the stamper accepts, so stamping with it is idempotent. */
  lemma ConfigVersionIsVersion()
    ensures IsVersion(CONFIG.version) && |CONFIG.files| == 1
  {
    assert CONFIG.version == "1.0";
  }

  // ---------------------------------------------------------------------------------------
  // What a run does, as functions of the files before it

  /** The contents after the files of `list` were updated in order. */
  function StampFiles(files: map<Path, string>, list: seq<Path>, version: string): (r: map<Path, string>)
    ensures r.Keys == files.Keys
  {
    if |list| == 0 then files
    else
      var m := StampFiles(files, list[..|list| - 1], version);
      var f := list[|list| - 1];
      if f in m then m[f := Stamp(m[f], version)] else m
  }

  /** The report for one configured file. */
  function ReportFor(files: map<Path, string>, f: Path): (r: Report)
    ensures r.file == f
    ensures r.Updated? <==> f in files
  {
    if f in files then Updated(f) else Missing(f)
  }

  /** The reports of a run, one per configured file, in order. */
  function Reports(files: map<Path, string>, list: seq<Path>): (r: seq<Report>)
    ensures |r| == |list|
    ensures forall i :: 0 <= i < |list| ==> r[i].file == list[i] && (r[i].Updated? <==> list[i] in files)
  {
    seq(|list|, i requires 0 <= i < |list| => ReportFor(files, list[i]))
  }

  // ---------------------------------------------------------------------------------------
  // The file system and the script

  /** The directory the script runs in. */
  class Disk {
    var files: map<Path, string>

    constructor (files: map<Path, string>)
      ensures this.files == files
    {
      this.files := files;
    }

    predicate Exists(path: Path)
      reads this
    {
      path in files
    }

    /** Overwrites (or creates) one file. */
    method Write(path: Path, content: string)
      modifies this
      ensures files == old(files)[path := content]
    {
      files := files[path := content];
    }

    /** Updates one configured file: skipped with a report when it does not exist, otherwise
        read, stamped and written back. */
    method UpdateFile(file: Path, version: string) returns (report: Report)
      modifies this
      ensures report == ReportFor(old(files), file)
      ensures files == if file in old(files) then old(files)[file := Stamp(old(files)[file], version)] else old(files)
    {
      if !Exists(file) {
        return Missing(file);
      }
      var content := files[file];
      content := Stamp(content, version);
      Write(file, content);
      report := Updated(file);
    }
  }

  /** The script: every configured file in order, a missing one not stopping the rest. */
  method UpdateVersionReferences(disk: Disk, config: Config) returns (reports: seq<Report>)
    modifies disk
    ensures disk.files == StampFiles(old(disk.files), config.files, config.version)
    ensures reports == Reports(old(disk.files), config.files)
  {
    ghost var before := disk.files;
    reports := [];
    var i := 0;
    while i < |config.files|
      invariant 0 <= i <= |config.files|
      invariant disk.files == StampFiles(before, config.files[..i], config.version)
      invariant reports == Reports(before, config.files[..i])
    {
      var report := disk.UpdateFile(config.files[i], config.version);
      StampFilesSnoc(before, config.files, i, config.version);
      ReportsSnoc(before, config.files, i);
      reports := reports + [report];
      i := i + 1;
    }
    assert config.files[..i] == config.files;
  }

  /** One more file of the list updated. */
  lemma StampFilesSnoc(files: map<Path, string>, list: seq<Path>, i: nat, version: string)
    requires i < |list|
    ensures var m := StampFiles(files, list[..i], version);
      StampFiles(files, list[..i + 1], version) == if list[i] in m then m[list[i] := Stamp(m[list[i]], version)] else m
  {
    assert list[..i + 1][..i] == list[..i];
  }

  /** One more file of the list reported. */
  lemma ReportsSnoc(files: map<Path, string>, list: seq<Path>, i: nat)
    requires i < |list|
    ensures Reports(files, list[..i + 1]) == Reports(files, list[..i]) + [ReportFor(files, list[i])]
  {
  }

  // ---------------------------------------------------------------------------------------
  // Properties of a run

  /** After a run with a version of digits and dots, each existing file named in the list holds
      its stamped original contents (once, however often it is named), and every other file is
      untouched. */
  lemma {:induction false} StampFilesAt(files: map<Path, string>, list: seq<Path>, version: string, path: Path)
    requires IsVersion(version) && path in files
    ensures StampFiles(files, list, version)[path]
         == if path in list then Stamp(files[path], version) else files[path]
  {
    if |list| > 0 {
      var init := list[..|list| - 1];
      var f := list[|list| - 1];
      StampFilesAt(files, init, version, path);
      assert list == init + [f];
      assert path in list <==> path in init || path == f;
      if path == f && path in init {
        StampIdempotent(files[path], version);
      }
    }
  }

  /** A file the list does not name is untouched, whatever the version. */
  lemma {:induction false} StampFilesUnlisted(files: map<Path, string>, list: seq<Path>, version: string, path: Path)
    requires path in files && path !in list
    ensures StampFiles(files, list, version)[path] == files[path]
  {
    if |list| > 0 {
      var init := list[..|list| - 1];
      assert list == init + [list[|list| - 1]];
      StampFilesUnlisted(files, init, version, path);
    }
  }

  /** A file the list names once holds its stamped original, whatever the version. */
  lemma {:induction false} StampFilesOnce(files: map<Path, string>, list: seq<Path>, version: string, path: Path)
    requires path in files && multiset(list)[path] == 1
    ensures StampFiles(files, list, version)[path] == Stamp(files[path], version)
  {
    if |list| == 0 {
      assert false;
    }
    var init := list[..|list| - 1];
    var f := list[|list| - 1];
    assert list == init + [f];
    assert multiset(list) == multiset(init) + multiset{f};
    if f == path {
      assert path !in multiset(init);
      StampFilesUnlisted(files, init, version, path);
    } else {
      StampFilesOnce(files, init, version, path);
    }
  }

  /** Running the script a second time changes no file. */
  lemma RunTwiceSameFiles(files: map<Path, string>, list: seq<Path>, version: string)
    requires IsVersion(version)
    ensures StampFiles(StampFiles(files, list, version), list, version) == StampFiles(files, list, version)
  {
    var once := StampFiles(files, list, version);
    var twice := StampFiles(once, list, version);
    forall path | path in files ensures twice[path] == once[path] {
      StampFilesAt(files, list, version, path);
      StampFilesAt(once, list, version, path);
      if path in list {
        StampIdempotent(files[path], version);
      }
    }
  }

  /** After a run, every stylesheet and script reference in an updated file carries the
      configured version. */
  lemma UpdatedFilesCarryVersion(files: map<Path, string>, list: seq<Path>, version: string, path: Path)
    requires IsVersion(version) && path in files && path in list
    ensures OnlyVersion(StampFiles(files, list, version)[path], StylesPrefix, version)
    ensures OnlyVersion(StampFiles(files, list, version)[path], ScriptPrefix, version)
  {
    StampFilesAt(files, list, version, path);
    StampLeavesOnlyVersion(files[path], version);
  }

  /** Running the shipped script a second time changes no file. */
  lemma ShippedRunTwiceSameFiles(files: map<Path, string>)
    ensures StampFiles(StampFiles(files, CONFIG.files, CONFIG.version), CONFIG.files, CONFIG.version)
         == StampFiles(files, CONFIG.files, CONFIG.version)
  {
    ConfigVersionIsVersion();
    RunTwiceSameFiles(files, CONFIG.files, CONFIG.version);
  }

  /** The shipped run: `index.html`, when present, is stamped with `1.0` and reported updated;
      when absent, it is reported missing and the directory is left as it was. */
  lemma ShippedRun(files: map<Path, string>)
    ensures "index.html" in files ==>
      StampFiles(files, CONFIG.files, CONFIG.version) == files["index.html" := Stamp(files["index.html"], "1.0")]
      && Reports(files, CONFIG.files) == [Updated("index.html")]
    ensures "index.html" !in files ==>
      StampFiles(files, CONFIG.files, CONFIG.version) == files
      && Reports(files, CONFIG.files) == [Missing("index.html")]
  {
    assert CONFIG.files[..0] == [];
  }
}
