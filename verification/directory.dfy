/** Classifiers over the directory and title records: a directory entry's
    allocation state and the region and licence letters of its file name. */
module Directory {
  import opened Bytes
  import opened Records

  datatype BAState = AllocFirst | AllocMid | AllocLast | Free | FreeFirst | FreeMid | FreeLast | Unknown

  /** The state word that stands for each known allocation state. */
  function StateCode(s: BAState): u32
    requires !s.Unknown?
  {
    match s
    case AllocFirst => 0x51
    case AllocMid => 0x52
    case AllocLast => 0x53
    case Free => 0xA0
    case FreeFirst => 0xA1
    case FreeMid => 0xA2
    case FreeLast => 0xA3
  }

  /** `DirectoryFrame::get_alloc_state`: the state word names a known state
      exactly when it is one of the seven codes, and then it is that state's
      code. */
  function GetAllocState(df: DirectoryFrame): (r: BAState)
    ensures r.Unknown? <==> df.state !in {0x51, 0x52, 0x53, 0xA0, 0xA1, 0xA2, 0xA3}
    ensures !r.Unknown? ==> StateCode(r) == df.state
  {
    match df.state
    case 0x51 => AllocFirst
    case 0x52 => AllocMid
    case 0x53 => AllocLast
    case 0xA0 => Free
    case 0xA1 => FreeFirst
    case 0xA2 => FreeMid
    case 0xA3 => FreeLast
    case _ => Unknown
  }

  /** Distinct known states have distinct codes, so a state is recovered
      from its code. */
  lemma GetAllocStateOfCode(s: BAState, df: DirectoryFrame)
    requires !s.Unknown? && df.state == StateCode(s)
    ensures GetAllocState(df) == s
  {
  }

  datatype Region = Japan | America | Europe | UnknownRegion
  datatype License = Sony | Licensed | UnknownLicense

  /** Region and licence of a save, read from its file name. */
  datatype RegionInfo = RegionInfo(region: Region, license: License)

  /** Region and licence part of `DirectoryFrame::get_region_info`: file name
      byte 1 is 'I' = 0x49 (Japan), 'A' = 0x41 (America) or 'E' = 0x45
      (Europe); byte 3 is 'C' = 0x43 (Sony) or 'L' = 0x4C (licensed).
      Anything else is unknown. */
  function GetRegionInfo(df: DirectoryFrame): (r: RegionInfo)
    ensures r.region == Japan <==> df.filename[1] == 0x49
    ensures r.region == America <==> df.filename[1] == 0x41
    ensures r.region == Europe <==> df.filename[1] == 0x45
    ensures r.license == Sony <==> df.filename[3] == 0x43
    ensures r.license == Licensed <==> df.filename[3] == 0x4C
  {
    var region := match df.filename[1]
      case 0x49 => Japan
      case 0x41 => America
      case 0x45 => Europe
      case _ => UnknownRegion;
    var license := match df.filename[3]
      case 0x43 => Sony
      case 0x4C => Licensed
      case _ => UnknownLicense;
    RegionInfo(region, license)
  }
}
