/**
  FAT32 directories (src/fs/fat32.cpp): looking a name up and enumerating entries both walk the cluster
  chain. A sector read is a partial function of its address, so that a failed read is one that fails again.
 */
module FatDirectory {

  import opened Common

  const SECTOR: nat := 512
  const ENTRY: nat := 32
  const EOC: nat := 0x0FFFFFF8
  const WORD: nat := 0x1_0000_0000

  /** A mounted volume with 512-byte sectors; disk holds the sectors that can be read. */
  datatype Volume = Volume(disk: map<nat, seq<Byte>>, start: nat, reserved: nat, perCluster: nat, dataStart: nat)

  ghost predicate VolumeOk(v: Volume) {
    1 <= v.perCluster <= 8 && forall lba :: lba in v.disk ==> |v.disk[lba]| == SECTOR
  }

  function SectorAt(v: Volume, lba: nat): Option<seq<Byte>> {
    var at := (v.start + lba) % WORD;
    if at in v.disk then Some(v.disk[at]) else None
  }

  /** The entry of the allocation table for a cluster, without its top four bits. */
  function TableEntry(sector: seq<Byte>, at: nat): nat
    requires at + 4 <= |sector|
  {
    sector[at] + 0x100 * (sector[at + 1] as int) + 0x10000 * (sector[at + 2] as int)
    + 0x1000000 * (sector[at + 3] % 16 as int)
  }

  function NextCluster(v: Volume, cluster: nat): nat
    requires VolumeOk(v)
  {
    match SectorAt(v, (v.reserved + cluster * 4 / SECTOR) % WORD)
    case None => EOC
    case Some(sector) => TableEntry(sector, cluster * 4 % SECTOR)
  }

  /** The first sector of a cluster; clusters are numbered from 2, in 32-bit arithmetic. */
  function FirstSector(v: Volume, cluster: nat): nat {
    (v.dataStart + (cluster + WORD - 2) % WORD * v.perCluster) % WORD
  }

  /** The sectors of a cluster from the i-th on, or None if one of them cannot be read. */
  function SectorsFrom(v: Volume, first: nat, i: nat): (r: Option<seq<Byte>>)
    requires VolumeOk(v) && i <= v.perCluster
    ensures r.Some? ==> |r.value| == SECTOR * (v.perCluster - i)
    decreases v.perCluster - i
  {
    if i == v.perCluster then Some([])
    else
      match SectorAt(v, (first + i) % WORD)
      case None => None
      case Some(sector) => Joined(sector, SectorsFrom(v, first, i + 1))
  }

  function Joined(done: seq<Byte>, rest: Option<seq<Byte>>): Option<seq<Byte>> {
    if rest.None? then None else Some(done + rest.value)
  }

  lemma JoinTwice(x: seq<Byte>, y: seq<Byte>, r: Option<seq<Byte>>)
    ensures Joined([], r) == r && Joined(x, Joined(y, r)) == Joined(x + y, r)
  {
    if r.Some? {
      assert [] + r.value == r.value;
      assert x + (y + r.value) == (x + y) + r.value;
    }
  }

  function ClusterBytes(v: Volume, cluster: nat): Option<seq<Byte>>
    requires VolumeOk(v)
  {
    SectorsFrom(v, FirstSector(v, cluster), 0)
  }

  // ---------- Entries ----------

  /** What both operations report of an entry: name, kind, size and offset in its cluster. */
  datatype Item = Item(name: seq<Byte>, dir: bool, size: nat, inode: nat)

  /** An entry of a directory; only a lookup reports its first cluster. */
  datatype Entry = Entry(item: Item, first: nat)

  function UpTo(s: seq<Byte>, stop: Byte): (r: seq<Byte>)
    ensures |r| <= |s| && r == s[..|r|] && stop !in r && (|r| < |s| ==> s[|r|] == stop)
  {
    if s == [] || s[0] == stop then [] else [s[0]] + UpTo(s[1..], stop)
  }

  lemma {:induction false} UpToIs(s: seq<Byte>, stop: Byte, n: nat)
    requires n <= |s| && stop !in s[..n] && (n < |s| ==> s[n] == stop)
    ensures UpTo(s, stop) == s[..n]
  {
    if n > 0 {
      assert s[0] == s[..n][0] && s[1..][..n - 1] == s[..n][1..];
      UpToIs(s[1..], stop, n - 1);
    }
  }

  predicate IsDir(buf: seq<Byte>, off: nat)
    requires off + ENTRY <= |buf|
  {
    buf[off + 11] / 16 % 2 == 1
  }

  /** The 8.3 name: base and extension up to a space, the extension only for files. */
  function EntryName(buf: seq<Byte>, off: nat): seq<Byte>
    requires off + ENTRY <= |buf|
  {
    var base := UpTo(buf[off..off + 8], 32);
    if IsDir(buf, off) || buf[off + 8] == 32 then base
    else base + [46] + UpTo(buf[off + 8..off + 11], 32)
  }

  function Number(buf: seq<Byte>, at: nat, n: nat): nat
    requires at + n <= |buf|
    decreases n
  {
    if n == 0 then 0 else buf[at] + 256 * Number(buf, at + 1, n - 1)
  }

  function EntryAt(buf: seq<Byte>, off: nat): Entry
    requires off + ENTRY <= |buf|
  {
    Entry(Item(UpTo(EntryName(buf, off), 0), IsDir(buf, off), Number(buf, off + 28, 4), off),
          Number(buf, off + 20, 2) * 0x10000 + Number(buf, off + 26, 2))
  }

  /** Deleted entries and parts of long names are passed over. */
  predicate Skipped(buf: seq<Byte>, off: nat)
    requires off + ENTRY <= |buf|
  {
    buf[off] == 0xE5 || buf[off + 11] == 0x0F
  }

  /** The live entries of a cluster from off on; a zero name ends the cluster. */
  function Live(buf: seq<Byte>, off: nat): seq<Entry>
    decreases |buf| - off
  {
    if off + ENTRY > |buf| || buf[off] == 0 then []
    else if Skipped(buf, off) then Live(buf, off + ENTRY)
    else [EntryAt(buf, off)] + Live(buf, off + ENTRY)
  }

  /** The clusters that are visited from this one on. */
  ghost predicate Chain(v: Volume, cluster: nat, clusters: seq<nat>)
    requires VolumeOk(v)
    decreases |clusters|
  {
    if clusters == [] then cluster >= EOC
    else cluster == clusters[0] && cluster < EOC && Chain(v, NextCluster(v, cluster), clusters[1..])
  }

  /** The entries of a directory, up to a cluster that cannot be read. */
  ghost function Listing(v: Volume, clusters: seq<nat>): seq<Entry>
    requires VolumeOk(v)
  {
    if clusters == [] then []
    else
      match ClusterBytes(v, clusters[0])
      case None => []
      case Some(buf) => Live(buf, 0) + Listing(v, clusters[1..])
  }

  // ---------- Where things are on the disk ----------

  lemma ModAdds(x: int, y: int)
    ensures (x % 0x1_0000_0000 + y) % 0x1_0000_0000 == (x + y) % 0x1_0000_0000
  {
  }

  lemma ModTimes(x: int, n: nat)
    ensures (x % 0x1_0000_0000 * n) % 0x1_0000_0000 == (x * n) % 0x1_0000_0000
  {
    if n > 0 {
      ModTimes(x, n - 1);
      ModAdds(x % 0x1_0000_0000 * (n - 1), x % 0x1_0000_0000);
      ModAdds(x * (n - 1), x % 0x1_0000_0000);
      ModAdds(x, x * (n - 1));
      assert x % 0x1_0000_0000 * n == x % 0x1_0000_0000 * (n - 1) + x % 0x1_0000_0000;
      assert x * n == x * (n - 1) + x;
    }
  }

  /** Cluster c begins (c - 2) clusters behind the start of the data area, in 32-bit arithmetic. */
  lemma FirstSectorIs(v: Volume, c: nat)
    ensures FirstSector(v, c) == (v.dataStart + (c - 2) * v.perCluster) % WORD
  {
    var x := (c + WORD - 2) % WORD;
    assert x == (c - 2) % WORD;
    ModTimes(c - 2, v.perCluster);
    ModAdds(x * v.perCluster, v.dataStart);
    ModAdds((c - 2) * v.perCluster, v.dataStart);
  }

  lemma FirstSectorBelow(v: Volume, c: nat, begin: int)
    requires begin == (c - 2) * v.perCluster && 0 <= v.dataStart + begin < WORD
    ensures FirstSector(v, c) == v.dataStart + begin
  {
    hide FirstSector;
    FirstSectorIs(v, c);
  }

  /** Below the wrap the clusters tile the data area: the first begins it, and each begins where the one before ends. */
  lemma ClustersTile(v: Volume, c: nat)
    requires c >= 2 && v.dataStart + (c - 1) * v.perCluster < WORD
    ensures FirstSector(v, 2) == v.dataStart && FirstSector(v, c) == v.dataStart + (c - 2) * v.perCluster
    ensures FirstSector(v, c + 1) == FirstSector(v, c) + v.perCluster
  {
    hide FirstSector;
    var begin := (c - 2) * v.perCluster;
    Monotone(0, c - 2, v.perCluster);
    assert (c - 1) * v.perCluster == begin + v.perCluster;
    FirstSectorBelow(v, 2, 0);
    FirstSectorBelow(v, c, begin);
    FirstSectorBelow(v, c + 1, begin + v.perCluster);
  }

  /** Different clusters share no sector. */
  lemma ClustersApart(v: Volume, c: nat, d: nat, i: nat, j: nat)
    requires 2 <= c < d && v.dataStart + (d - 1) * v.perCluster < WORD && i < v.perCluster && j < v.perCluster
    ensures FirstSector(v, c) + i < FirstSector(v, d) + j < WORD
  {
    hide FirstSector;
    var n, x, y := v.perCluster, (c - 2) * v.perCluster, (d - 2) * v.perCluster;
    Monotone(0, c - 2, n);
    Monotone(c - 1, d - 2, n);
    assert (c - 1) * n == x + n && (d - 1) * n == y + n;
    FirstSectorBelow(v, c, x);
    FirstSectorBelow(v, d, y);
  }

  lemma Monotone(a: int, b: int, n: nat)
    requires a <= b
    ensures a * n <= b * n
  {
  }

  /** The disk address of sector i of cluster c. */
  ghost function SectorOf(v: Volume, c: nat, i: nat): nat {
    (v.start + v.dataStart + (c - 2) * v.perCluster + i) % WORD
  }

  /** The disk address of sector i behind a first one, as it is computed. */
  ghost function SectorBehind(v: Volume, first: nat, i: nat): nat {
    (v.start + (first + i) % WORD) % WORD
  }

  lemma SectorOfIs(v: Volume, c: nat, i: nat)
    ensures SectorBehind(v, FirstSector(v, c), i) == SectorOf(v, c, i)
  {
    hide FirstSector;
    FirstSectorIs(v, c);
    var x := v.dataStart + (c - 2) * v.perCluster;
    ModAdds(x, i);
    ModAdds(x + i, v.start);
  }

  lemma {:induction false} SectorsFromAt(v: Volume, first: nat, k: nat, i: nat, j: nat)
    requires VolumeOk(v) && k <= i < v.perCluster && j < SECTOR
    ensures var r, at := SectorsFrom(v, first, k), SectorBehind(v, first, i);
            r.Some? ==> at in v.disk && r.value[SECTOR * (i - k) + j] == v.disk[at][j]
    decreases i - k
  {
    if k < i { SectorsFromAt(v, first, k + 1, i, j); }
  }

  lemma {:induction false} SectorsFromFails(v: Volume, first: nat, k: nat) returns (i: nat)
    requires VolumeOk(v) && k <= v.perCluster && SectorsFrom(v, first, k).None?
    ensures k <= i < v.perCluster && SectorBehind(v, first, i) !in v.disk
    decreases v.perCluster - k
  {
    if SectorAt(v, (first + k) % WORD).None? { i := k; } else { i := SectorsFromFails(v, first, k + 1); }
  }

  /** A cluster can be read exactly if all its sectors can, and then byte 512 * i + j is byte j of its sector i. */
  lemma ClusterIs(v: Volume, c: nat)
    requires VolumeOk(v)
    ensures ClusterBytes(v, c).Some? <==> forall i: nat :: i < v.perCluster ==> SectorOf(v, c, i) in v.disk
    ensures ClusterBytes(v, c).Some? ==>
              forall i: nat, j: nat {:trigger v.disk[SectorOf(v, c, i)][j]} :: i < v.perCluster && j < SECTOR ==>
                ClusterBytes(v, c).value[SECTOR * i + j] == v.disk[SectorOf(v, c, i)][j]
  {
    hide SectorsFrom, SectorOf, FirstSector, SectorBehind;
    if ClusterBytes(v, c).Some? {
      forall i: nat, j: nat | i < v.perCluster && j < SECTOR
        ensures SectorOf(v, c, i) in v.disk
        ensures ClusterBytes(v, c).value[SECTOR * i + j] == v.disk[SectorOf(v, c, i)][j]
      {
        SectorOfIs(v, c, i);
        SectorsFromAt(v, FirstSector(v, c), 0, i, j);
      }
      forall i: nat | i < v.perCluster ensures SectorOf(v, c, i) in v.disk {
        SectorOfIs(v, c, i);
        SectorsFromAt(v, FirstSector(v, c), 0, i, 0);
      }
    } else {
      var i := SectorsFromFails(v, FirstSector(v, c), 0);
      SectorOfIs(v, c, i);
    }
  }

  // ---------- Numbers ----------

  /** Little-endian: byte k counts 256^k. */
  lemma NumberIs(buf: seq<Byte>, at: nat)
    requires at + 4 <= |buf|
    ensures Number(buf, at, 2) == buf[at] + 0x100 * buf[at + 1] as int
    ensures Number(buf, at, 4)
         == buf[at] + 0x100 * buf[at + 1] as int + 0x10000 * buf[at + 2] as int + 0x1000000 * buf[at + 3] as int
  {
    assert Number(buf, at + 3, 1) == buf[at + 3] as int && Number(buf, at + 1, 1) == buf[at + 1] as int;
    assert Number(buf, at + 2, 2) == buf[at + 2] + 256 * Number(buf, at + 3, 1);
  }

  lemma TableEntryIs(sector: seq<Byte>, at: nat)
    requires at + 4 <= |sector|
    ensures TableEntry(sector, at) == Number(sector, at, 4) % 0x1000_0000
  {
    hide Number;
    NumberIs(sector, at);
  }

  /** The cluster behind c is the c-th 32-bit number of the table without its top four bits. */
  lemma NextClusterIs(v: Volume, c: nat)
    requires VolumeOk(v)
    ensures var at := (v.start + v.reserved + c / 128) % WORD;
            NextCluster(v, c) == if at !in v.disk then 0x0FFFFFF8
                                 else Number(v.disk[at], c % 128 * 4, 4) % 0x1000_0000
  {
    hide TableEntry, Number;
    assert c * 4 / SECTOR == c / 128 && c * 4 % SECTOR == c % 128 * 4;
    ModAdds(v.reserved + c / 128, v.start);
    var at := (v.start + v.reserved + c / 128) % WORD;
    if at in v.disk { TableEntryIs(v.disk[at], c % 128 * 4); }
  }

  // ---------- What an entry says ----------

  /** The fields of an entry, byte by byte. */
  lemma EntryIs(buf: seq<Byte>, off: nat)
    requires off + ENTRY <= |buf|
    ensures var e := EntryAt(buf, off);
            && e.first == buf[off + 26] + 0x100 * buf[off + 27] as int
                          + 0x10000 * buf[off + 20] as int + 0x1000000 * buf[off + 21] as int
            && e.item.size == buf[off + 28] + 0x100 * buf[off + 29] as int
                              + 0x10000 * buf[off + 30] as int + 0x1000000 * buf[off + 31] as int
            && e.item.dir == (buf[off + 11] / 0x10 % 2 == 1) && e.item.inode == off
  {
    hide EntryName;
    NumberIs(buf, off + 20);
    NumberIs(buf, off + 26);
    NumberIs(buf, off + 28);
  }

  /** A name that is filled up with spaces. */
  ghost predicate Padded(field: seq<Byte>, name: seq<Byte>) {
    && name <= field && (forall k :: 0 <= k < |name| ==> name[k] != 0 && name[k] != 32)
    && forall k :: |name| <= k < |field| ==> field[k] == 32
  }

  lemma PaddingIsDropped(field: seq<Byte>, name: seq<Byte>)
    requires Padded(field, name)
    ensures UpTo(field, 32) == name
  {
    assert field[..|name|] == name;
    UpToIs(field, 32, |name|);
  }

  /** A name and its extension, each filled up with spaces, are read back with a dot between them. */
  lemma NameReadsBack(buf: seq<Byte>, off: nat, base: seq<Byte>, ext: seq<Byte>)
    requires off + ENTRY <= |buf| && Padded(buf[off..off + 8], base) && Padded(buf[off + 8..off + 11], ext)
    ensures EntryAt(buf, off).item.name == if EntryAt(buf, off).item.dir || ext == [] then base else base + [46] + ext
  {
    hide UpTo, Number;
    PaddingIsDropped(buf[off..off + 8], base);
    PaddingIsDropped(buf[off + 8..off + 11], ext);
    assert buf[off + 8] == buf[off + 8..off + 11][0];
    var name := EntryName(buf, off);
    assert name == if IsDir(buf, off) || ext == [] then base else base + [46] + ext;
    assert 0 !in name && name[..|name|] == name;
    UpToIs(name, 0, |name|);
  }

  /** An entry that is in use: neither deleted nor part of a long name, and no zero name up to it. */
  ghost predicate InUse(buf: seq<Byte>, off: nat, at: int) {
    && off <= at && at + ENTRY <= |buf| && (at - off) % ENTRY == 0
    && buf[at] != 0xE5 && buf[at + 11] != 0x0F
    && forall b :: off <= b <= at && (b - off) % ENTRY == 0 ==> buf[b] != 0
  }

  /** The live entries are those in use, in the order of their offsets. */
  lemma {:induction false} LiveIs(buf: seq<Byte>, off: nat)
    ensures var live := Live(buf, off);
            && (forall at :: InUse(buf, off, at) ==> EntryAt(buf, at) in live)
            && (forall i :: 0 <= i < |live| ==>
                  InUse(buf, off, live[i].item.inode) && live[i] == EntryAt(buf, live[i].item.inode))
            && forall i, j :: 0 <= i < j < |live| ==> live[i].item.inode < live[j].item.inode
    decreases |buf| - off
  {
    hide EntryName, Number, UpTo;
    if off + ENTRY <= |buf| && buf[off] != 0 {
      LiveIs(buf, off + ENTRY);
      forall at | at != off ensures InUse(buf, off, at) <==> InUse(buf, off + ENTRY, at) { InUseBehind(buf, off, at); }
      var next := off + ENTRY;
      forall at | InUse(buf, next, at) ensures at > off { NotBefore(buf, off, at); }
      InUseFirst(buf, off);
      hide InUse;
    } else {
      forall at ensures !InUse(buf, off, at) { NoneInUse(buf, off, at); }
      hide InUse;
    }
  }

  lemma NotBefore(buf: seq<Byte>, off: nat, at: int)
    requires InUse(buf, off + ENTRY, at)
    ensures at > off
  {
  }

  lemma InUseFirst(buf: seq<Byte>, off: nat)
    requires off + ENTRY <= |buf| && buf[off] != 0
    ensures InUse(buf, off, off) <==> !Skipped(buf, off)
  {
  }

  lemma NoneInUse(buf: seq<Byte>, off: nat, at: int)
    requires off + ENTRY > |buf| || buf[off] == 0
    ensures !InUse(buf, off, at)
  {
    assert off <= |buf| - ENTRY ==> (off - off) % ENTRY == 0;
  }

  lemma InUseBehind(buf: seq<Byte>, off: nat, at: int)
    requires off + ENTRY <= |buf| && buf[off] != 0 && at != off
    ensures InUse(buf, off, at) <==> InUse(buf, off + ENTRY, at)
  {
  }

  /** Cluster after cluster is listed, up to the first that cannot be read. */
  lemma {:induction false} ListingIs(v: Volume, before: seq<nat>, c: nat, behind: seq<nat>)
    requires VolumeOk(v) && forall k :: 0 <= k < |before| ==> ClusterBytes(v, before[k]).Some?
    ensures Listing(v, before + [c] + behind)
         == Listing(v, before) + match ClusterBytes(v, c)
                                 case None => []
                                 case Some(buf) => Live(buf, 0) + Listing(v, behind)
    decreases |before|
  {
    hide ClusterBytes, Live;
    var all := before + [c] + behind;
    if before == [] {
      assert all[1..] == behind;
    } else {
      ListingIs(v, before[1..], c, behind);
      assert all[1..] == before[1..] + [c] + behind;
    }
  }

  // ---------- The code ----------

  /** fat32_read_cluster: fills the buffer sector by sector; false if a sector cannot be read. */
  method ReadCluster(v: Volume, cluster: nat, buf: array<Byte>) returns (ok: bool)
    requires VolumeOk(v) && buf.Length == SECTOR * 8
    modifies buf
    ensures ok == ClusterBytes(v, cluster).Some?
    ensures ok ==> buf[..SECTOR * v.perCluster] == ClusterBytes(v, cluster).value
  {
    var first := FirstSector(v, cluster);
    JoinTwice([], [], SectorsFrom(v, first, 0));
    assert buf[..0] == [];
    var i := 0;
    while i < v.perCluster
      invariant 0 <= i <= v.perCluster
      invariant SectorsFrom(v, first, 0) == Joined(buf[..SECTOR * i], SectorsFrom(v, first, i))
    {
      var sector := SectorAt(v, (first + i) % WORD);
      if sector.None? { return false; }
      ghost var filled := buf[..SECTOR * i];
      CopySector(buf, SECTOR * i, sector.value);
      assert buf[..SECTOR * (i + 1)] == filled + sector.value;
      JoinTwice(filled, sector.value, SectorsFrom(v, first, i + 1));
      i := i + 1;
    }
    return true;
  }

  method CopySector(buf: array<Byte>, at: nat, sector: seq<Byte>)
    requires |sector| == SECTOR && at + SECTOR <= buf.Length
    modifies buf
    ensures buf[..at] == old(buf[..at]) && buf[at..at + SECTOR] == sector
  {
    var j := 0;
    while j < SECTOR
      invariant 0 <= j <= SECTOR && buf[..at] == old(buf[..at]) && buf[at..at + j] == sector[..j]
    {
      buf[at + j] := sector[j];
      j := j + 1;
    }
  }

  /** Copies characters up to a space. */
  method CopyUpTo(buf: array<Byte>, from: nat, to: nat) returns (name: seq<Byte>)
    requires from <= to <= buf.Length
    ensures name == UpTo(buf[from..to], 32)
  {
    name := [];
    var j := from;
    while j < to && buf[j] != 32
      invariant from <= j <= to && name == buf[from..j] && 32 !in name
    {
      name := name + [buf[j]];
      j := j + 1;
    }
    UpToIs(buf[from..to], 32, j - from);
  }

  method BuildName(buf: array<Byte>, off: nat) returns (name: seq<Byte>)
    requires off + ENTRY <= buf.Length
    ensures name == EntryName(buf[..], off)
  {
    name := CopyUpTo(buf, off, off + 8);
    if buf[off + 11] / 16 % 2 == 0 {
      if buf[off + 8] != 32 {
        var ext := CopyUpTo(buf, off + 8, off + 11);
        name := name + [46] + ext;
      }
    }
  }

  /** The first entry of this name, or None. */
  function Find(entries: seq<Entry>, name: seq<Byte>): Option<Entry> {
    if entries == [] then None else if entries[0].item.name == name then Some(entries[0]) else Find(entries[1..], name)
  }

  /** Looks for a name in one cluster. */
  method ScanForName(buf: array<Byte>, n: nat, name: seq<Byte>) returns (hit: Option<Entry>)
    requires n <= buf.Length
    ensures hit == Find(Live(buf[..n], 0), name)
  {
    var off := 0;
    while off + ENTRY <= n
      invariant Find(Live(buf[..n], 0), name) == Find(Live(buf[..n], off), name)
      decreases n - off
    {
      if buf[off] == 0 { break; }
      if buf[off] == 0xE5 || buf[off + 11] == 0x0F {
        off := off + ENTRY;
        continue;
      }
      var entryName := BuildName(buf, off);
      SameName(buf[..], n, off);
      var entry := EntryAt(buf[..n], off);
      if UpTo(entryName, 0) == name { return Some(entry); }
      off := off + ENTRY;
    }
    return None;
  }

  lemma SameName(buf: seq<Byte>, n: nat, off: nat)
    requires n <= |buf| && off + ENTRY <= n
    ensures EntryName(buf[..n], off) == EntryName(buf, off)
  {
    assert buf[..n][off..off + 8] == buf[off..off + 8] && buf[..n][off + 8..off + 11] == buf[off + 8..off + 11];
  }

  /** Counts the live entries of one cluster on from count, and stops at the index-th. */
  method ScanForIndex(buf: array<Byte>, n: nat, index: nat, count0: nat) returns (hit: Option<Entry>, count: nat)
    requires n <= buf.Length && count0 <= index
    ensures var live := Live(buf[..n], 0);
            if index - count0 < |live| then hit == Some(live[index - count0])
            else hit == None && count == count0 + |live| && count <= index
  {
    hide EntryName, Number, UpTo;
    var off := 0;
    count := count0;
    ghost var live := Live(buf[..n], 0);
    while off + ENTRY <= n
      invariant count0 <= count <= index && count - count0 <= |live| && Live(buf[..n], off) == live[count - count0..]
      decreases n - off
    {
      if buf[off] == 0 { break; }
      if buf[off] == 0xE5 || buf[off + 11] == 0x0F {
        off := off + ENTRY;
        continue;
      }
      if count == index {
        return Some(EntryAt(buf[..n], off)), count;
      }
      count := count + 1;
      off := off + ENTRY;
    }
    return None, count;
  }

  lemma FindAppend(x: seq<Entry>, y: seq<Entry>, name: seq<Byte>)
    ensures Find(x + y, name) == if Find(x, name).Some? then Find(x, name) else Find(y, name)
  {
    if x == [] {
      assert x + y == y;
    } else {
      FindAppend(x[1..], y, name);
      assert (x + y)[1..] == x[1..] + y;
    }
  }

  /** fat32_finddir, on a finite cluster chain; memory says whether kmalloc finds room for the result. */
  method FindDir(v: Volume, isDir: bool, first: nat, name: seq<Byte>, memory: bool, ghost clusters: seq<nat>)
    returns (r: Option<Entry>)
    requires VolumeOk(v) && Chain(v, first, clusters)
    ensures r == Lookup(v, isDir, clusters, name, memory)
  {
    if !isDir { return None; }
    var buf := new Byte[SECTOR * 8];
    var cluster: nat := first;
    ghost var rest := clusters;
    while cluster < EOC
      invariant Chain(v, cluster, rest)
      invariant Find(Listing(v, clusters), name) == Find(Listing(v, rest), name)
      decreases |rest|
    {
      var ok := ReadCluster(v, cluster, buf);
      if !ok { return None; }
      r := ScanForName(buf, SECTOR * v.perCluster, name);
      FindAppend(Live(buf[..SECTOR * v.perCluster], 0), Listing(v, rest[1..]), name);
      if r.Some? {
        if !memory { return None; }
        return r;
      }
      cluster := NextCluster(v, cluster);
      rest := rest[1..];
    }
    return None;
  }

  /** fat32_readdir, on a finite cluster chain. */
  method ReadDir(v: Volume, isDir: bool, first: nat, index: nat, ghost clusters: seq<nat>) returns (r: Option<Item>)
    requires VolumeOk(v) && Chain(v, first, clusters)
    ensures r == Enumeration(v, isDir, clusters, index)
  {
    hide Live, SectorsFrom;
    if !isDir { return None; }
    var buf := new Byte[SECTOR * 8];
    var cluster: nat, count: nat := first, 0;
    ghost var rest := clusters;
    while cluster < EOC
      invariant Chain(v, cluster, rest) && count <= index
      invariant Enumerated(Listing(v, clusters), index) == Enumerated(Listing(v, rest), index - count)
      decreases |rest|
    {
      var ok := ReadCluster(v, cluster, buf);
      if !ok { return None; }
      EnumeratedAppend(Live(buf[..SECTOR * v.perCluster], 0), Listing(v, rest[1..]), index - count);
      var hit;
      hit, count := ScanForIndex(buf, SECTOR * v.perCluster, index, count);
      if hit.Some? { return Some(hit.value.item); }
      cluster := NextCluster(v, cluster);
      rest := rest[1..];
    }
    return None;
  }

  function Enumerated(entries: seq<Entry>, index: nat): Option<Entry> {
    if index < |entries| then Some(entries[index]) else None
  }

  lemma EnumeratedAppend(x: seq<Entry>, y: seq<Entry>, i: nat)
    ensures Enumerated(x + y, i) == if i < |x| then Some(x[i]) else Enumerated(y, i - |x|)
  {
  }

  lemma {:induction false} FindIsLeast(entries: seq<Entry>, name: seq<Byte>)
    ensures Find(entries, name).Some? <==> exists i :: 0 <= i < |entries| && entries[i].item.name == name
    ensures forall i :: LeastNamed(entries, name, i) ==> Find(entries, name) == Some(entries[i])
  {
    if entries != [] {
      FindIsLeast(entries[1..], name);
      forall i | 1 <= i < |entries| ensures entries[i] == entries[1..][i - 1] {}
      forall i | LeastNamed(entries, name, i) && i > 0 ensures LeastNamed(entries[1..], name, i - 1) {
        forall k | 0 <= k < i - 1 ensures entries[1..][k].item.name != name {
          assert entries[1..][k] == entries[k + 1];
        }
      }
    }
  }

  ghost predicate LeastNamed(entries: seq<Entry>, name: seq<Byte>, i: int) {
    0 <= i < |entries| && entries[i].item.name == name && forall k :: 0 <= k < i ==> entries[k].item.name != name
  }

  // ---------- Lookup against enumeration ----------

  /** What a lookup in a directory yields; without memory for a node, nothing. */
  ghost function Lookup(v: Volume, isDir: bool, clusters: seq<nat>, name: seq<Byte>, memory: bool): Option<Entry>
    requires VolumeOk(v)
  {
    if isDir && memory then Find(Listing(v, clusters), name) else None
  }

  /** What an index of a directory yields. */
  ghost function Enumeration(v: Volume, isDir: bool, clusters: seq<nat>, index: nat): Option<Item>
    requires VolumeOk(v)
  {
    if isDir && index < |Listing(v, clusters)| then Some(Listing(v, clusters)[index].item) else None
  }

  ghost predicate Yields(v: Volume, clusters: seq<nat>, name: seq<Byte>, i: nat)
    requires VolumeOk(v)
  {
    Enumeration(v, true, clusters, i).Some? && Enumeration(v, true, clusters, i).value.name == name
  }

  /**
    In every directory a name is found exactly when some index yields it, and what is found is what the
    least such index yields. The indices that yield something are those below the number of entries.
   */
  lemma LookupIsEnumeration(v: Volume, clusters: seq<nat>, name: seq<Byte>)
    requires VolumeOk(v)
    ensures Lookup(v, true, clusters, name, true).Some? <==> exists i: nat :: Yields(v, clusters, name, i)
    ensures forall i: nat ::
              Yields(v, clusters, name, i) && (forall k: nat :: k < i ==> !Yields(v, clusters, name, k)) ==>
                Some(Lookup(v, true, clusters, name, true).value.item) == Enumeration(v, true, clusters, i)
    ensures Lookup(v, true, clusters, name, false) == None
    ensures forall memory :: Lookup(v, false, clusters, name, memory) == None
    ensures forall i: nat :: Enumeration(v, false, clusters, i) == None
  {
    var entries := Listing(v, clusters);
    FindIsLeast(entries, name);
    hide Listing, Find;
    forall i: nat | i < |entries| && entries[i].item.name == name ensures Yields(v, clusters, name, i) {}
    forall i: nat | Yields(v, clusters, name, i) && forall k: nat :: k < i ==> !Yields(v, clusters, name, k)
      ensures LeastNamed(entries, name, i)
    {
      forall k: nat | k < i ensures entries[k].item.name != name {
        assert !Yields(v, clusters, name, k);
      }
    }
  }

  // ---------- The end mark ----------

  /** A zero name is met in this cluster. */
  predicate Marked(buf: seq<Byte>, off: nat)
    decreases |buf| - off
  {
    off + ENTRY <= |buf| && (buf[off] == 0 || Marked(buf, off + ENTRY))
  }

  /** The entries as the FAT specification has them: none after the first zero name. */
  ghost function SpecifiedListing(v: Volume, clusters: seq<nat>): seq<Entry>
    requires VolumeOk(v)
  {
    if clusters == [] then []
    else
      match ClusterBytes(v, clusters[0])
      case None => []
      case Some(buf) => Live(buf, 0) + if Marked(buf, 0) then [] else SpecifiedListing(v, clusters[1..])
  }

  /** The clusters behind the first one with a zero name. */
  ghost function Behind(v: Volume, clusters: seq<nat>): seq<nat>
    requires VolumeOk(v)
  {
    if clusters == [] || ClusterBytes(v, clusters[0]).None? then []
    else if Marked(ClusterBytes(v, clusters[0]).value, 0) then clusters[1..]
    else Behind(v, clusters[1..])
  }

  /**
    The code ends only the cluster, not the directory, at a zero name. It lists what the specification lists
    and then the live entries of the clusters behind the mark, so it agrees exactly when there are none.
   */
  lemma {:induction false} ListsBehindTheMark(v: Volume, clusters: seq<nat>)
    requires VolumeOk(v)
    ensures Listing(v, clusters) == SpecifiedListing(v, clusters) + Listing(v, Behind(v, clusters))
    ensures Listing(v, clusters) == SpecifiedListing(v, clusters) <==> Listing(v, Behind(v, clusters)) == []
  {
    if clusters != [] && ClusterBytes(v, clusters[0]).Some? {
      var live := Live(ClusterBytes(v, clusters[0]).value, 0);
      hide Live, Marked;
      if !Marked(ClusterBytes(v, clusters[0]).value, 0) {
        ListsBehindTheMark(v, clusters[1..]);
      }
    }
  }

  /** The two-cluster directory of the example: cluster 2, all zero, is followed by cluster 3. */
  function EmptyCluster(): seq<Byte> { seq(SECTOR, _ => 0) }

  /** An entry named A and behind it a zero name. */
  function OneEntry(): seq<Byte> { [65] + seq(10, _ => 32) + seq(SECTOR - 11, _ => 0) }

  /** The table: cluster 2 is followed by 3, and 3 is the last one. */
  function ChainTable(): seq<Byte> {
    seq(8, _ => 0) + [3, 0, 0, 0, 0xFF, 0xFF, 0xFF, 0x0F] + seq(SECTOR - 16, _ => 0)
  }

  function TwoClusters(): Volume {
    Volume(map[0 := ChainTable(), 1 := EmptyCluster(), 2 := OneEntry()], 0, 0, 1, 1)
  }

  lemma ClusterThere(cluster: nat, sector: seq<Byte>)
    requires (cluster == 2 && sector == EmptyCluster()) || (cluster == 3 && sector == OneEntry())
    ensures VolumeOk(TwoClusters()) && ClusterBytes(TwoClusters(), cluster) == Some(sector)
  {
    var v := TwoClusters();
    assert SectorsFrom(v, cluster - 1, 1) == Some([]);
    assert sector + [] == sector;
  }

  lemma TableThere()
    ensures VolumeOk(TwoClusters())
    ensures NextCluster(TwoClusters(), 2) == 3 && NextCluster(TwoClusters(), 3) == 0x0FFFFFFF
  {
    assert SectorAt(TwoClusters(), 0) == Some(ChainTable());
  }

  /** A directory with an entry behind the mark: the specification has it empty, and the code lists A. */
  lemma BehindTheMarkExample()
    ensures VolumeOk(TwoClusters()) && Chain(TwoClusters(), 2, [2, 3])
    ensures SpecifiedListing(TwoClusters(), [2, 3]) == []
    ensures Lookup(TwoClusters(), true, [2, 3], [65], true).Some?
    ensures Enumeration(TwoClusters(), true, [2, 3], 0).Some?
  {
    hide ClusterBytes, NextCluster, TwoClusters, EmptyCluster, OneEntry;
    var v := TwoClusters();
    TableThere();
    ClusterThere(2, EmptyCluster());
    ClusterThere(3, OneEntry());
    EmptyLive();
    OneLive();
    assert [2, 3][1..] == [3] && [3][1..] == [];
    assert Listing(v, [3]) == Live(OneEntry(), 0) + [];
    assert Listing(v, [2, 3]) == Live(OneEntry(), 0);
  }

  lemma EmptyLive()
    ensures Live(EmptyCluster(), 0) == [] && Marked(EmptyCluster(), 0)
  {
  }

  lemma OneLive()
    ensures |Live(OneEntry(), 0)| == 1 && Live(OneEntry(), 0)[0].item.name == [65]
  {
    hide UpTo;
    var buf := OneEntry();
    OneName();
    assert Live(buf, 32) == [];
    hide EntryAt;
    assert Live(buf, 0) == [EntryAt(buf, 0)] + Live(buf, 32);
  }

  lemma OneName()
    ensures EntryAt(OneEntry(), 0).item.name == [65]
  {
    hide UpTo;
    var buf := OneEntry();
    UpToIs(buf[0..8], 32, 1);
    assert EntryName(buf, 0) == [65];
    UpToIs([65], 0, 1);
  }
}
