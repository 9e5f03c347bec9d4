/** `GetMountPoint`: the mount directory of a device path, read from the mount table. */
module Mounts {
  import opened Values

  /** One line of the mount table as `getmntent` decodes it. */
  datatype MountEntry = MountEntry(fsname: string, dir: string)

  /** How the JavaScript call ends: it throws, returns a directory, or returns no value. */
  datatype MountResult = Threw(message: string) | Returned(dir: string) | NoValue

  /** The error thrown when the mount table cannot be opened. */
  const OpenFailure: string := "Can't open mounted filesystems\n"

  /** The string a C `char*` holding `s` denotes: everything before the first NUL. */
  function CString(s: string): (r: string)
    ensures r <= s
    ensures '\0' !in r
    ensures |r| < |s| ==> s[|r|] == '\0'
  {
    if |s| == 0 || s[0] == '\0' then "" else [s[0]] + CString(s[1..])
  }

  /** `strcmp(e.mnt_fsname, path) == 0`. */
  predicate Matches(e: MountEntry, path: string) {
    CString(e.fsname) == CString(path)
  }

  /** A string without NUL is its own C string. */
  lemma {:induction false} CStringOfPlain(s: string)
    requires '\0' !in s
    ensures CString(s) == s
  {
    if |s| > 0 {
      assert '\0' !in s[1..] by {
        forall k | 0 <= k < |s[1..]| ensures s[1..][k] != '\0' { assert s[1..][k] == s[k + 1]; }
      }
      CStringOfPlain(s[1..]);
    }
  }

  /** For NUL-free strings a match is exact string equality: no normalisation of any kind. */
  lemma MatchesIsEquality(e: MountEntry, path: string)
    requires '\0' !in e.fsname && '\0' !in path
    ensures Matches(e, path) <==> e.fsname == path
  {
    CStringOfPlain(e.fsname);
    CStringOfPlain(path);
  }

  /** Scans the mount table in order and returns the directory of the first entry whose
      device name is `path`. `table` is `None` when `setmntent` fails. `scanned` counts
      the `getmntent` calls that returned an entry; `streamClosed` says whether
      `endmntent` ran. */
  method GetMountPoint(path: string, table: Option<seq<MountEntry>>)
    returns (r: MountResult, ghost scanned: nat, ghost streamClosed: bool)
    ensures table.None? ==> r == Threw(OpenFailure) && scanned == 0 && !streamClosed
    ensures table.Some? ==> !r.Threw?
    ensures table.Some? ==> (r.Returned? <==> exists j :: 0 <= j < |table.value| && Matches(table.value[j], path))
    ensures table.Some? && r.Returned? ==>
      && 0 < scanned <= |table.value|
      && Matches(table.value[scanned - 1], path)
      && r.dir == table.value[scanned - 1].dir
      && (forall j :: 0 <= j < scanned - 1 ==> !Matches(table.value[j], path))
      && !streamClosed
    ensures table.Some? && !r.Returned? ==>
      && r == NoValue
      && scanned == |table.value|
      && (forall j :: 0 <= j < |table.value| ==> !Matches(table.value[j], path))
      && streamClosed
  {
    scanned, streamClosed := 0, false;
    if table.None? {
      return Threw(OpenFailure), scanned, streamClosed;
    }
    var entries := table.value;
    var i := 0;
    while i < |entries|
      invariant i <= |entries| && scanned == i
      invariant forall j :: 0 <= j < i ==> !Matches(entries[j], path)
    {
      var mnt := entries[i];
      scanned := scanned + 1;
      if CString(mnt.fsname) == CString(path) {
        return Returned(mnt.dir), scanned, streamClosed;
      }
      i := i + 1;
    }
    streamClosed := true;
    r := NoValue;
  }
}
