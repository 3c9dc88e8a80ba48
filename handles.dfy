/** The mutable side of the program: `fat_t` with its open image (`Fat`) and `dir_t` (`Dir`),
    whose operations move the image position and update the directory's fields step by step.
    Each method is proved to compute what the functions of `Volume`, `Entries` and `Scan`
    describe. */
module Handles {
  import opened Bytes
  import opened Results
  import opened Volume
  import opened Entries
  import opened LongNames
  import opened Scan

  const VOLUME_LABEL_LENGTH: nat := 11

  /** `fat_t` together with the image it reads: the image bytes, the geometry, the stream
      position, and how many more directory slots may be read (the bound that stands in for
      the missing cycle check on cluster chains). */
  class Fat {
    const img: seq<u8>
    const geo: Geometry
    var pos: nat
    var budget: nat

    constructor (img: seq<u8>, geo: Geometry, pos: nat, budget: nat)
      ensures this.img == img && this.geo == geo && this.pos == pos && this.budget == budget
    {
      this.img := img;
      this.geo := geo;
      this.pos := pos;
      this.budget := budget;
    }

    /** `fat_seek`: the position becomes the target; its failure exit is not modelled. */
    method Seek(p: nat)
      modifies this
      ensures pos == p && budget == old(budget)
    {
      pos := p;
    }

    /** `fat_read` of one 32-byte slot into `dst`. A short read is reported instead of exiting. */
    method ReadSlot(dst: array<u8>) returns (failure: Option<IoError>)
      requires dst.Length == SLOT_SIZE
      modifies this, dst
      ensures failure == (if old(budget) == 0 then Some(Exhausted)
                          else if old(pos) + SLOT_SIZE > |img| then Some(ShortRead)
                          else None)
      ensures failure.None? ==> && dst[..] == img[old(pos)..old(pos) + SLOT_SIZE]
                                && pos == old(pos) + SLOT_SIZE && budget == old(budget) - 1
      ensures failure.Some? ==> unchanged(this, dst)
    {
      if budget == 0 {
        return Some(Exhausted);
      }
      if pos + SLOT_SIZE > |img| {
        return Some(ShortRead);
      }
      forall i | 0 <= i < SLOT_SIZE {
        dst[i] := img[pos + i];
      }
      pos := pos + SLOT_SIZE;
      budget := budget - 1;
      failure := None;
    }

    /** `fat_get_next_cluster`: seek to the FAT entry and read it as a 32-bit value. */
    method NextCluster(c: u32) returns (r: Result<u32, IoError>)
      modifies this
      ensures r == Scan.NextCluster(geo, img, c)
      ensures r.Ok? ==> pos == FatEntryPos(geo, c) + 4
      ensures budget == old(budget)
    {
      var fatPos := Wrap32(geo.fatStart * geo.sectorSize);
      var p := Wrap32(c - 1) * 4 + fatPos;
      Seek(p);
      if pos + 4 > |img| {
        return Err(ShortRead);
      }
      r := Ok(LE32(img, pos));
      pos := pos + 4;
    }
  }

  /** `dir_t`: a directory being listed. `entry` is the directory's own short entry. */
  class Dir {
    const fat: Fat
    var endReached: bool
    var prevPos: nat
    var clusterEndPos: int
    var cluster: u32
    const entry: Slot

    /** Both ways a `dir_t` is made: zeroed apart from the FAT handle and the entry. */
    constructor (fat: Fat, entry: Slot)
      ensures this.fat == fat && this.entry == entry
      ensures !endReached && prevPos == 0 && clusterEndPos == 0 && cluster == 0
    {
      this.fat := fat;
      this.entry := entry;
      endReached := false;
      prevPos := 0;
      clusterEndPos := 0;
      cluster := 0;
    }

    /** The image position together with the fields of the directory that move with it. */
    function At(): Cursor
      reads this, fat
    {
      Cursor(fat.pos, cluster, clusterEndPos, endReached)
    }

    /** `dir_seek_to_cluster`. */
    method SeekToCluster(c: u32)
      modifies this, fat
      ensures At() == Scan.SeekToCluster(fat.geo, c, old(endReached))
      ensures fat.budget == old(fat.budget) && prevPos == old(prevPos)
    {
      var p := ClusterPos(fat.geo, c);
      cluster := c;
      clusterEndPos := p + fat.geo.sectorSize;
      fat.Seek(p);
    }

    /** The end-of-cluster check of `fat_read_entry`, made after a long-name fragment: at the
        cluster end, read the FAT and either move to the next cluster or mark the end. */
    method FollowChain() returns (failure: Option<IoError>)
      modifies this, fat
      ensures var cur := old(At());
              if cur.pos != cur.clusterEndPos then failure.None? && At() == cur
              else match Scan.NextCluster(fat.geo, fat.img, cur.cluster)
                case Err(err) => failure == Some(err)
                case Ok(next) =>
                  && failure.None?
                  && At() == (if next != FAT_END_OF_CHAIN then Scan.SeekToCluster(fat.geo, next, cur.endReached)
                              else cur.(pos := FatEntryPos(fat.geo, cur.cluster) + 4, endReached := true))
      ensures fat.budget == old(fat.budget) && prevPos == old(prevPos)
    {
      failure := None;
      if fat.pos == clusterEndPos {
        var next := fat.NextCluster(cluster);
        if next.Err? {
          return Some(next.error);
        }
        if next.value != FAT_END_OF_CHAIN {
          SeekToCluster(next.value);
        } else {
          endReached := true;
        }
      }
    }

    /** One pass of the do-while body of `fat_read_entry`. */
    method ReadOne(slot: array<u8>, lfn: array<u16>) returns (failure: Option<IoError>)
      requires slot.Length == SLOT_SIZE && lfn.Length == LFN_BUFFER_LENGTH
      modifies this, fat, slot, lfn
      ensures old(fat.budget) == 0 ==> failure == Some(Exhausted)
      ensures old(fat.budget) != 0 ==>
                var r := ReadStep(fat.geo, fat.img, old(At()), old(lfn[..]));
                && (r.Err? <==> failure.Some?)
                && (r.Err? ==> failure == Some(r.error))
                && (r.Ok? ==> && slot[..] == r.value.slot && At() == r.value.cur
                              && lfn[..] == r.value.lfn && fat.budget == old(fat.budget) - 1)
      ensures prevPos == old(prevPos)
    {
      failure := fat.ReadSlot(slot);
      if failure.Some? {
        return;
      }
      var e: Slot := slot[..];
      if Attributes(e) == ATTR_LFN {
        PutFragment(e, lfn);
        failure := FollowChain();
      }
    }

    /** `fat_read_entry`: clear the name buffer, then read slots while they are long-name
        fragments and the chain has not ended. */
    method ReadEntry(slot: array<u8>, lfn: array<u16>) returns (failure: Option<IoError>)
      requires slot.Length == SLOT_SIZE && lfn.Length == LFN_BUFFER_LENGTH
      modifies this, fat, slot, lfn
      ensures var r := Scan.ReadEntry(fat.geo, fat.img, old(At()), old(fat.budget));
              && (r.Err? <==> failure.Some?)
              && (r.Err? ==> failure == Some(r.error))
              && (r.Ok? ==> && slot[..] == r.value.slot && At() == r.value.cur
                            && lfn[..] == r.value.lfn && fat.budget == r.value.fuel)
      ensures prevPos == old(prevPos)
    {
      forall i | 0 <= i < LFN_BUFFER_LENGTH {
        lfn[i] := 0;
      }
      assert lfn[..] == EmptyLfn();
      ghost var g, img := fat.geo, fat.img;
      ghost var goal := Scan.ReadEntry(g, img, At(), fat.budget);
      var more := true;
      while more
        invariant more ==> ReadSlots(g, img, At(), lfn[..], fat.budget) == goal
        invariant !more ==> && goal.Ok? && slot[..] == goal.value.slot && At() == goal.value.cur
                            && lfn[..] == goal.value.lfn && fat.budget == goal.value.fuel
        invariant prevPos == old(prevPos)
        decreases more, fat.budget
      {
        ReadSlotsStep(g, img, At(), lfn[..], fat.budget);
        failure := ReadOne(slot, lfn);
        if failure.Some? {
          return;
        }
        more := Attributes(slot[..]) == ATTR_LFN && !endReached;
      }
      failure := None;
    }

    /** `fat_enter_dir`: remember the position and move to the directory's first cluster. */
    method Enter()
      requires IsDir(entry)
      modifies this, fat
      ensures prevPos == old(fat.pos)
      ensures At() == Scan.SeekToCluster(fat.geo, StartCluster(entry), false)
      ensures fat.budget == old(fat.budget)
    {
      var start := StartCluster(entry);
      endReached := false;
      prevPos := fat.pos;
      SeekToCluster(start);
    }

    /** `fat_leave_dir`: go back to the remembered position. */
    method Leave()
      modifies fat
      ensures fat.pos == prevPos && fat.budget == old(fat.budget)
    {
      fat.Seek(prevPos);
    }

    /** The body of `print_dir`'s loop after an entry was read into `slot` and `lfn`: show it
        and, for a real directory, list that directory one level deeper. */
    method ShowEntry(slot: array<u8>, lfn: array<u16>, depth: nat) returns (recs: seq<Record>, failure: Option<IoError>)
      requires slot.Length == SLOT_SIZE && lfn.Length == LFN_BUFFER_LENGTH
      modifies fat, slot
      decreases fat.budget, 2
      ensures var e: Slot := old(slot[..]);
              var child :=
                if IsRealDir(e) then WalkDir(fat.geo, fat.img, e, depth + 1, old(fat.pos), old(fat.budget))
                else Walked([], None, old(fat.pos), old(fat.budget));
              && recs == Shown(e, lfn[..], depth) + child.records && failure == child.failure
              && (failure.None? ==> fat.pos == old(fat.pos) && fat.budget == child.fuel
                                    && slot[..] == AfterShow(e, lfn[..]))
    {
      var e: Slot := slot[..];
      recs := [];
      failure := None;
      ClassesExclusive(e);
      if IsVolumeId(e) {
        RemoveTrailingSpaces(slot, VOLUME_LABEL_LENGTH);
        recs := [Record(depth, LabelLine, Short(Strn(slot[..VOLUME_LABEL_LENGTH], NUL, VOLUME_LABEL_LENGTH)), e)];
        assert slot[..] == slot[..VOLUME_LABEL_LENGTH] + slot[VOLUME_LABEL_LENGTH..];
      } else if IsRealDir(e) {
        var sub := new Dir(fat, e);
        var name := PrintEntryName(slot, lfn);
        var inner;
        inner, failure := sub.Print(depth + 1);
        recs := [Record(depth, DirLine, name, e)] + inner;
      } else if IsFile(e) {
        var name := PrintEntryName(slot, lfn);
        recs := [Record(depth, FileLine, name, e)];
      }
    }

    /** One pass of `print_dir`'s do-while loop: read an entry, show it (listing a real
        directory one level deeper), and decide whether to go on. */
    method Pass(slot: array<u8>, lfn: array<u16>, depth: nat) returns (recs: seq<Record>, failure: Option<IoError>, more: bool)
      requires slot.Length == SLOT_SIZE && lfn.Length == LFN_BUFFER_LENGTH
      modifies this, fat, slot, lfn
      decreases fat.budget, 0
      ensures var w := WalkEntries(fat.geo, fat.img, old(At()), depth, old(fat.budget));
              && (failure.Some? ==> recs == w.records && failure == w.failure)
              && (failure.None? && more ==>
                    var rest := WalkEntries(fat.geo, fat.img, At(), depth, fat.budget);
                    w == rest.(records := recs + rest.records))
              && (failure.None? && !more ==> w == Walked(recs, None, fat.pos, fat.budget))
      ensures failure.None? && more ==> fat.budget < old(fat.budget)
      ensures prevPos == old(prevPos)
    {
      ghost var g, img, cur, fuel := fat.geo, fat.img, At(), fat.budget;
      WalkEntriesStep(g, img, cur, depth, fuel);
      more := false;
      failure := ReadEntry(slot, lfn);
      if failure.Some? {
        recs := [];
        return;
      }
      ghost var sc := Scan.ReadEntry(g, img, cur, fuel).value;
      ghost var child := Descend(g, img, sc, depth);
      recs, failure := ShowEntry(slot, lfn, depth);
      assert recs == Shown(sc.slot, sc.lfn, depth) + child.records;
      if failure.Some? {
        return;
      }
      more := !IsEmpty(slot[..]) && !endReached;
      assert At() == sc.cur && fat.budget == child.fuel;
    }

    /** `print_dir` with `g_path_depth == depth` inside the directory: the lines shown, in order,
        and the read failure that stopped the program, if any. On a normal return the image
        position is back where it was. */
    method Print(depth: nat) returns (out: seq<Record>, failure: Option<IoError>)
      requires IsDir(entry)
      modifies this, fat
      decreases fat.budget, 1
      ensures var w := WalkDir(fat.geo, fat.img, entry, depth, old(fat.pos), old(fat.budget));
              && out == w.records && failure == w.failure
              && (failure.None? ==> fat.pos == w.pos && fat.budget == w.fuel)
    {
      ghost var g, img := fat.geo, fat.img;
      ghost var walk := WalkDir(g, img, entry, depth, fat.pos, fat.budget);
      Enter();
      ghost var goal := WalkEntries(g, img, At(), depth, fat.budget);
      assert walk == if goal.failure.None? then goal.(pos := prevPos) else goal;
      var slot := new u8[SLOT_SIZE];
      var lfn := new u16[LFN_BUFFER_LENGTH];
      out := [];
      failure := None;
      var more := true;
      while more
        invariant fat.budget <= old(fat.budget) && failure.None?
        invariant prevPos == old(fat.pos)
        invariant more ==> var w := WalkEntries(g, img, At(), depth, fat.budget);
                           goal == w.(records := out + w.records)
        invariant !more ==> goal == Walked(out, None, fat.pos, fat.budget)
        decreases more, fat.budget
      {
        ghost var w := WalkEntries(g, img, At(), depth, fat.budget);
        var recs;
        recs, failure, more := Pass(slot, lfn, depth);
        if failure.Some? {
          out := out + recs;
          assert walk == goal && goal.records == out && goal.failure == failure;
          return;
        }
        if more {
          ghost var rest := WalkEntries(g, img, At(), depth, fat.budget);
          assert out + (recs + rest.records) == (out + recs) + rest.records;
        } else {
          assert w == Walked(recs, None, fat.pos, fat.budget);
        }
        out := out + recs;
      }
      Leave();
    }
  }

  /** `print_entry_name` without the output: the name that is shown, trimming the 8-byte short
      name in place when no long name was collected. */
  method PrintEntryName(slot: array<u8>, lfn: array<u16>) returns (name: Name)
    requires slot.Length == SLOT_SIZE && lfn.Length == LFN_BUFFER_LENGTH
    modifies slot
    ensures name == DisplayName(old(slot[..]), lfn[..])
    ensures slot[..] == AfterDisplay(old(slot[..]), lfn[..])
  {
    ghost var e: Slot := slot[..];
    if lfn[0] != 0 {
      name := Long(Strn(lfn[..], 0, 255));
    } else {
      assert FileName(e) == old(slot[..8]);
      RemoveTrailingSpaces(slot, 8);
      assert slot[..] == slot[..8] + slot[8..];
      assert slot[8..] == e[8..];
      assert slot[8..11] == Ext(e) && slot[11] == Attributes(e);
      var shown := Strn(slot[..8], NUL, 8);
      if IsDir(slot[..]) {
        name := Short(shown);
      } else {
        name := Short(shown + [DOT] + Strn(slot[8..11], NUL, 3));
      }
    }
  }

  /** `fat_mount` on an image already opened: read the boot-sector fields at their offsets,
      derive the geometry, and make the root directory's entry from the root cluster. An image
      too short to hold those fields is refused. */
  method Mount(img: seq<u8>, budget: nat) returns (r: Result<Dir, MountError>)
    ensures ParseBootSector(img).Err? ==> r == Err(ParseBootSector(img).error)
    ensures ParseBootSector(img).Ok? ==>
              var b := ParseBootSector(img).value;
              && r.Ok? && fresh(r.value) && fresh(r.value.fat)
              && r.value.fat.img == img && r.value.fat.geo == Derive(b)
              && r.value.fat.pos == MountPos(b) && r.value.fat.budget == budget
              && r.value.entry == DirEntryFor(b.rootCluster) && r.value.At() == Cursor(MountPos(b), 0, 0, false)
  {
    if |img| < BOOT_FIELDS_END {
      return Err(Truncated);
    }
    var sectorSize := LE16(img, 0x0B);
    var sectorsPerCluster := img[0x0D];
    var reserved := LE16(img, 0x0E);
    var fatsNum := img[0x10];
    var sectorsPerFat := LE32(img, 0x24);
    var rootCluster := LE32(img, 0x2C);
    var sectorsNum: u32 := LE16(img, 0x13);
    var pos := 0x15;
    if sectorsNum == 0 {
      sectorsNum := LE32(img, 0x20);
      pos := 0x24;
    }
    var geo := Geometry(sectorSize, sectorsNum, sectorsPerCluster, reserved,
                        Wrap32(reserved + fatsNum * sectorsPerFat), rootCluster);
    var fat := new Fat(img, geo, pos, budget);
    var root := new Dir(fat, DirEntryFor(rootCluster));
    r := Ok(root);
  }
}
