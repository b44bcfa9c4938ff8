/**
 * The commands that read and rewrite the device identity: `get_device_info`,
 * `get_skytraxx_device` and `update_device_info`.
 */
module Identity {
  import opened Wrappers
  import opened Str
  import opened IdentityFile
  import opened Locator
  import opened Frontend
  import opened Device

  const IDENTITY_FILE := ".sys/hwsw.info"
  const READ_FAILED := "Failed to read file"
  const NO_DEVICE_NAME := "device_name not found"
  const NO_SOFTWARE_VERSION := "software_version not found"
  const BUILD_PREFIX := "build-"

  /** `get_device_info`: find the device, read its identity file, parse it. */
  function GetDeviceInfo(disks: seq<Disk>, text: TextFiles): (r: Result<map<string, string>>)
    ensures Lookup(disks, LABEL).None? ==> r == Err(DEVICE_NOT_FOUND)
    ensures Lookup(disks, LABEL).Some? ==>
      var path := Under(Lookup(disks, LABEL).value, IDENTITY_FILE);
      r == if path in text then Ok(Parse(text[path])) else Err(READ_FAILED)
    ensures r.Ok? ==> Clean(r.value)
  {
    match Lookup(disks, LABEL)
    case None => Err(DEVICE_NOT_FOUND)
    case Some(mountpoint) =>
      var path := Under(mountpoint, IDENTITY_FILE);
      if path in text then
        ParseClean(text[path]);
        Ok(Parse(text[path]))
      else
        Err(READ_FAILED)
  }

  /** The software version as shown: every occurrence of `build-` removed. */
  function StripBuild(version: string): (shown: string)
    ensures |shown| <= |version|
    ensures Contains(version, BUILD_PREFIX) ==> |shown| <= |version| - |BUILD_PREFIX|
  {
    ReplaceDeleteShrinks(version, BUILD_PREFIX);
    Replace(version, BUILD_PREFIX, "")
  }

  /**
   * `get_skytraxx_device`: the identity needs both `hw` and `sw`; `hw` is
   * checked first, and a failure never carries a partial identity.
   */
  function GetSkytraxxDevice(disks: seq<Disk>, text: TextFiles): (r: FrontendResult<DeviceInfo>)
    ensures WellFormed(r)
    ensures GetDeviceInfo(disks, text).Err? ==> r == ErrorOf(GetDeviceInfo(disks, text).error)
    ensures GetDeviceInfo(disks, text).Ok? ==>
      var dict := GetDeviceInfo(disks, text).value;
      && ("hw" !in dict ==> r == ErrorOf(NO_DEVICE_NAME))
      && ("hw" in dict && "sw" !in dict ==> r == ErrorOf(NO_SOFTWARE_VERSION))
      && ("hw" in dict && "sw" in dict ==> r == ResultOf(DeviceInfo(dict["hw"], StripBuild(dict["sw"]))))
  {
    match GetDeviceInfo(disks, text)
    case Err(e) => ErrorOf(e)
    case Ok(dict) =>
      if "hw" !in dict then ErrorOf(NO_DEVICE_NAME)
      else if "sw" !in dict then ErrorOf(NO_SOFTWARE_VERSION)
      else ResultOf(DeviceInfo(dict["hw"], StripBuild(dict["sw"])))
  }

  /**
   * `update_device_info`: find the device, load the identity, set `sw`,
   * write the whole file back. The disks are listed twice, once here
   * (`disks`) and once more inside the load (`reloadDisks`); the file is
   * written below the first listing's mount point. A failure before the
   * write leaves the files as they were. When the two listings disagree,
   * the file that was read is not the one written.
   */
  method UpdateDeviceInfo(disks: seq<Disk>, reloadDisks: seq<Disk>, text: TextFiles,
                          softwareVersion: string, writeError: Option<string>)
    returns (r: Result<()>, saved: TextFiles)
    ensures Lookup(disks, LABEL).None? ==> r == Err(DEVICE_NOT_FOUND) && saved == text
    ensures Lookup(disks, LABEL).Some? && GetDeviceInfo(reloadDisks, text).Err? ==>
      r == Err(GetDeviceInfo(reloadDisks, text).error) && saved == text
    ensures Lookup(disks, LABEL).Some? && GetDeviceInfo(reloadDisks, text).Ok? && writeError.Some? ==>
      r == Err(writeError.value) && saved == text
    ensures Lookup(disks, LABEL).Some? && GetDeviceInfo(reloadDisks, text).Ok? && writeError.None? ==>
      var path := Under(Lookup(disks, LABEL).value, IDENTITY_FILE);
      var dict := GetDeviceInfo(reloadDisks, text).value["sw" := softwareVersion];
      && r == Ok(())
      && path in saved
      && saved == text[path := saved[path]]
      && exists order :: Enumerates(order, dict) && saved[path] == Render(dict, order)
    ensures Lookup(disks, LABEL).Some? && GetDeviceInfo(reloadDisks, text).Ok? && writeError.None? &&
            Lookup(reloadDisks, LABEL) != Lookup(disks, LABEL) ==>
      var read := Under(Lookup(reloadDisks, LABEL).value, IDENTITY_FILE);
      read in saved && saved[read] == text[read]
    ensures Lookup(disks, LABEL).Some? && GetDeviceInfo(reloadDisks, text).Ok? && writeError.None? &&
            Lookup(reloadDisks, LABEL) == Lookup(disks, LABEL) && CleanValue(softwareVersion) ==>
      GetDeviceInfo(disks, saved) == Ok(GetDeviceInfo(disks, text).value["sw" := softwareVersion])
  {
    var found := FindMountpoint(disks, LABEL);
    if found.None? {
      return Err(DEVICE_NOT_FOUND), text;
    }
    var mountpoint := found.value;
    var loaded := GetDeviceInfo(reloadDisks, text);
    if loaded.Err? {
      return Err(loaded.error), text;
    }
    var dict := loaded.value["sw" := softwareVersion];
    var content := WriteLines(dict);
    if writeError.Some? {
      return Err(writeError.value), text;
    }
    var path := Under(mountpoint, IDENTITY_FILE);
    saved := text[path := content];
    r := Ok(());
    var reloaded := Lookup(reloadDisks, LABEL);
    if reloaded != found {
      UnderDistinct(reloaded.value, mountpoint, IDENTITY_FILE);
    } else if CleanValue(softwareVersion) {
      ghost var order :| Enumerates(order, dict) && content == Render(dict, order);
      SaveThenLoad(disks, text, softwareVersion, order);
    }
  }

  /** Files of the same name below different mount points are different files. */
  lemma UnderDistinct(a: string, b: string, name: string)
    requires a != b
    ensures Under(a, name) != Under(b, name)
  {
    if |a| == |b| {
      assert exists i :: 0 <= i < |a| && a[i] != b[i];
      var i :| 0 <= i < |a| && a[i] != b[i];
      assert Under(a, name)[i] == a[i] && Under(b, name)[i] == b[i];
    } else {
      assert |Under(a, name)| != |Under(b, name)|;
    }
  }

  /** Setting `sw` leaves every other key and its value alone. */
  lemma SetVersionKeepsOthers(dict: map<string, string>, softwareVersion: string, key: string)
    requires key != "sw"
    ensures key in dict["sw" := softwareVersion] <==> key in dict
    ensures key in dict ==> dict["sw" := softwareVersion][key] == dict[key]
  {
  }

  /**
   * The identity file that `update_device_info` writes reads back as the
   * loaded identity with `sw` replaced, whatever order the lines came in.
   */
  lemma SaveThenLoad(disks: seq<Disk>, text: TextFiles, softwareVersion: string, order: seq<string>)
    requires GetDeviceInfo(disks, text).Ok? && CleanValue(softwareVersion)
    requires Enumerates(order, GetDeviceInfo(disks, text).value["sw" := softwareVersion])
    ensures var path := Under(Lookup(disks, LABEL).value, IDENTITY_FILE);
      var dict := GetDeviceInfo(disks, text).value["sw" := softwareVersion];
      GetDeviceInfo(disks, text[path := Render(dict, order)]) == Ok(dict)
  {
    var dict := GetDeviceInfo(disks, text).value["sw" := softwareVersion];
    RoundTrip(dict, order);
  }

  /** After a successful update, the device reports the new version and the same name. */
  lemma DiscoverAfterUpdate(disks: seq<Disk>, text: TextFiles, softwareVersion: string, order: seq<string>)
    requires GetDeviceInfo(disks, text).Ok? && "hw" in GetDeviceInfo(disks, text).value
    requires CleanValue(softwareVersion)
    requires Enumerates(order, GetDeviceInfo(disks, text).value["sw" := softwareVersion])
    ensures var path := Under(Lookup(disks, LABEL).value, IDENTITY_FILE);
      var dict := GetDeviceInfo(disks, text).value["sw" := softwareVersion];
      GetSkytraxxDevice(disks, text[path := Render(dict, order)]).result ==
        Some(DeviceInfo(GetDeviceInfo(disks, text).value["hw"], StripBuild(softwareVersion)))
  {
    SaveThenLoad(disks, text, softwareVersion, order);
  }

  /** A version written as `build-` and a rest without `build-` is shown as the rest. */
  lemma StripBuildPrefix(rest: string)
    requires !Contains(rest, BUILD_PREFIX)
    ensures StripBuild(BUILD_PREFIX + rest) == rest
  {
    var s := BUILD_PREFIX + rest;
    assert s[..|BUILD_PREFIX|] == BUILD_PREFIX && s[|BUILD_PREFIX|..] == rest;
    ReplaceAbsent(rest, BUILD_PREFIX, "");
  }

  /** The raw version `build-3.0.0` is shown as `3.0.0`. */
  lemma StripBuildExample()
    ensures StripBuild("build-3.0.0") == "3.0.0"
  {
    assert !Contains("3.0.0", BUILD_PREFIX) by {
      forall i | OccursAt("3.0.0", BUILD_PREFIX, i) ensures false {
      }
    }
    StripBuildPrefix("3.0.0");
  }

  /** The removal is not limited to a leading prefix. */
  lemma StripBuildInside()
    ensures StripBuild("3.0-build-1") == "3.0-1"
  {
  }
}
