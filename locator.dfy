/**
 * Finding the device: the host's list of mounted disks is searched for a disk
 * whose name equals the volume label up to ASCII case.
 */
module Locator {
  import opened Wrappers
  import opened Str

  /**
   * One entry of the host's disk list: its name and its mount path, which is
   * `None` when the path cannot be represented as text.
   */
  datatype Disk = Disk(name: string, mountPoint: Option<string>)

  predicate Matches(disk: Disk, volName: string)
  {
    EqIgnoreAsciiCase(disk.name, volName)
  }

  /** The outcome of the search: decided by the first disk whose name matches. */
  function Lookup(disks: seq<Disk>, volName: string): Option<string>
  {
    if disks == [] then None
    else if Matches(disks[0], volName) then disks[0].mountPoint
    else Lookup(disks[1..], volName)
  }

  /** `find_mountpoint`: a scan that returns at the first matching disk. */
  method FindMountpoint(disks: seq<Disk>, volName: string) returns (r: Option<string>)
    ensures r == Lookup(disks, volName)
  {
    for i := 0 to |disks|
      invariant Lookup(disks[i..], volName) == Lookup(disks, volName)
    {
      assert disks[i..][1..] == disks[i + 1..];
      if EqIgnoreAsciiCase(disks[i].name, volName) {
        match disks[i].mountPoint {
          case Some(mountpoint) => return Some(mountpoint);
          case None => return None;
        }
      }
    }
    return None;
  }

  /**
   * The first matching disk decides: its mount path if it is text, and
   * nothing otherwise, whatever the disks after it are.
   */
  lemma {:induction false} LookupFirstMatch(disks: seq<Disk>, volName: string, i: nat)
    requires i < |disks| && Matches(disks[i], volName)
    requires forall j :: 0 <= j < i ==> !Matches(disks[j], volName)
    ensures Lookup(disks, volName) == disks[i].mountPoint
  {
    if i > 0 {
      assert !Matches(disks[0], volName);
      forall j | 0 <= j < i - 1 ensures !Matches(disks[1..][j], volName) {
        assert disks[1..][j] == disks[j + 1];
      }
      LookupFirstMatch(disks[1..], volName, i - 1);
    }
  }

  /** No matching disk: no mount path. */
  lemma {:induction false} LookupNoMatch(disks: seq<Disk>, volName: string)
    requires forall j :: 0 <= j < |disks| ==> !Matches(disks[j], volName)
    ensures Lookup(disks, volName) == None
  {
    if disks != [] {
      assert !Matches(disks[0], volName);
      forall j | 0 <= j < |disks| - 1 ensures !Matches(disks[1..][j], volName) {
        assert disks[1..][j] == disks[j + 1];
      }
      LookupNoMatch(disks[1..], volName);
    }
  }

  /** A mount path that is found belongs to the first matching disk. */
  lemma {:induction false} LookupFound(disks: seq<Disk>, volName: string)
    requires Lookup(disks, volName).Some?
    ensures exists i ::
      && 0 <= i < |disks|
      && Matches(disks[i], volName)
      && disks[i].mountPoint == Lookup(disks, volName)
      && forall j :: 0 <= j < i ==> !Matches(disks[j], volName)
  {
    assert disks != [];
    if Matches(disks[0], volName) {
      assert disks[0].mountPoint == Lookup(disks, volName);
    } else {
      LookupFound(disks[1..], volName);
      var i :|
        && 0 <= i < |disks[1..]|
        && Matches(disks[1..][i], volName)
        && disks[1..][i].mountPoint == Lookup(disks[1..], volName)
        && forall j :: 0 <= j < i ==> !Matches(disks[1..][j], volName);
      assert disks[i + 1] == disks[1..][i];
      forall j | 0 <= j < i + 1 ensures !Matches(disks[j], volName) {
        if j > 0 {
          assert disks[j] == disks[1..][j - 1];
        }
      }
    }
  }

  /** Labels that differ only in ASCII case find the same mount path. */
  lemma {:induction false} LookupIgnoresCase(disks: seq<Disk>, a: string, b: string)
    requires EqIgnoreAsciiCase(a, b)
    ensures Lookup(disks, a) == Lookup(disks, b)
  {
    if disks != [] {
      EqIgnoreAsciiCaseTransfer(disks[0].name, a, b);
      LookupIgnoresCase(disks[1..], a, b);
    }
  }

  /** The two spellings of the label used by the commands find the same device. */
  lemma CallSitesAgree(disks: seq<Disk>)
    ensures Lookup(disks, "Skytraxx") == Lookup(disks, "skytraxx")
  {
    assert EqIgnoreAsciiCase("Skytraxx", "skytraxx");
    LookupIgnoresCase(disks, "Skytraxx", "skytraxx");
  }

  /** A first match with a non-text mount path hides a later readable match. */
  lemma UnreadableMatchHidesLater(path: string)
    ensures Lookup([Disk("SKYTRAXX", None), Disk("Skytraxx", Some(path))], "skytraxx") == None
  {
    var disks := [Disk("SKYTRAXX", None), Disk("Skytraxx", Some(path))];
    assert Matches(disks[0], "skytraxx");
    LookupFirstMatch(disks, "skytraxx", 0);
  }
}
