/**
 The catalog of bootable images, keyed by the OS names of the "start
 virtual machine" menu. An unknown name is meant to boot the Linux image;
 `BootImage` is that intended lookup.
 */
module Images {
  import opened Options

  datatype Os = Linux | FreeDos | OpenBsd | Kolibri | DamnSmallLinux | Windows7

  /** The menu value under which each image is catalogued. */
  function OsName(os: Os): string
  {
    match os
    case Linux => "linux"
    case FreeDos => "freedos"
    case OpenBsd => "openbsd"
    case Kolibri => "kolibri"
    case DamnSmallLinux => "dsl"
    case Windows7 => "windows7"
  }

  /** Where the emulator fetches each image from (its CD-ROM). */
  function ImageUrl(os: Os): string
  {
    match os
    case Linux => "https://copy.sh/v86/images/linux26.img"
    case FreeDos => "https://cdn.milosantos.com/freedos722.img"
    case OpenBsd => "https://copy.sh/v86/images/openbsd.img"
    case Kolibri => "https://copy.sh/v86/images/kolibri.img"
    case DamnSmallLinux => "https://cdn.milosantos.com/dsl-4.11.rc2.iso"
    case Windows7 => "https://cdn.milosantos.com/Win7.iso"
  }

  /** The image stored under `name` as one of the table's own keys, if any. */
  function CatalogEntry(name: string): (r: Option<Os>)
    ensures r.Some? ==> OsName(r.value) == name
  {
    if name == "linux" then Some(Linux)
    else if name == "freedos" then Some(FreeDos)
    else if name == "openbsd" then Some(OpenBsd)
    else if name == "kolibri" then Some(Kolibri)
    else if name == "dsl" then Some(DamnSmallLinux)
    else if name == "windows7" then Some(Windows7)
    else None
  }

  /** Every catalogued image is found under its own name: the table and `OsName` are inverse. */
  lemma CatalogRoundTrip(os: Os)
    ensures CatalogEntry(OsName(os)) == Some(os)
  {
  }

  /**
   The image booted for a requested name: its catalog entry, or Linux for any
   other name. This is the corrected lookup: as written, an inherited member
   name defeats the Linux fallback (`Findings.CdromAsWritten`).
   */
  function BootImage(name: string): (os: Os)
    ensures CatalogEntry(name).Some? ==> os == CatalogEntry(name).value
    ensures os == Linux <==> name == "linux" || CatalogEntry(name).None?
    ensures OsName(os) == name || CatalogEntry(name).None?
  {
    match CatalogEntry(name)
    case Some(os) => os
    case None => Linux
  }
}
