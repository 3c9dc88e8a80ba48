/** The directory walk as functions of the image: `fat_read_entry` (one resolved entry, across
    long-name fragments and cluster boundaries) and `print_dir` (the depth-first listing). The
    imperative methods in `Handles` are proved equal to these. */
module Scan {
  import opened Bytes
  import opened Results
  import opened Volume
  import opened Entries
  import opened LongNames

  /** Why a read of the image fails: fewer bytes left than requested (where the C code prints an
      error and exits), or the model's bound on slot reads is used up. */
  datatype IoError = ShortRead | Exhausted

  /** The image position and the `dir_t` fields that move with it. */
  datatype Cursor = Cursor(pos: nat, cluster: u32, clusterEndPos: int, endReached: bool)

  /** `dir_seek_to_cluster`: moves to cluster `c`; the "cluster end" is one SECTOR after its start. */
  function SeekToCluster(g: Geometry, c: u32, endReached: bool): (cur: Cursor)
    ensures cur.clusterEndPos - cur.pos == g.sectorSize
  {
    Cursor(ClusterPos(g, c), c, ClusterPos(g, c) + g.sectorSize, endReached)
  }

  /** `fat_get_next_cluster`: the 32-bit entry read at `FatEntryPos`. */
  function NextCluster(g: Geometry, img: seq<u8>, c: u32): (r: Result<u32, IoError>)
    ensures r.Ok? <==> FatEntryPos(g, c) + 4 <= |img|
  {
    var p := FatEntryPos(g, c);
    if p + 4 <= |img| then Ok(LE32(img, p)) else Err(ShortRead)
  }

  datatype Step = Step(slot: Slot, cur: Cursor, lfn: seq<u16>)

  /** One pass of the do-while body of `fat_read_entry`: read a slot; for a long-name fragment,
      store its units and, when the position is now the cluster end, follow the FAT. */
  function ReadStep(g: Geometry, img: seq<u8>, cur: Cursor, lfn: seq<u16>): (r: Result<Step, IoError>)
    requires |lfn| == LFN_BUFFER_LENGTH
    ensures r.Ok? ==> |r.value.lfn| == LFN_BUFFER_LENGTH
  {
    if cur.pos + SLOT_SIZE > |img| then Err(ShortRead)
    else
      var slot: Slot := img[cur.pos..cur.pos + SLOT_SIZE];
      var at := cur.pos + SLOT_SIZE;
      if Attributes(slot) != ATTR_LFN then Ok(Step(slot, cur.(pos := at), lfn))
      else
        var named := ApplyFragment(lfn, slot);
        if at != cur.clusterEndPos then Ok(Step(slot, cur.(pos := at), named))
        else match NextCluster(g, img, cur.cluster)
          case Err(e) => Err(e)
          case Ok(next) =>
            if next != FAT_END_OF_CHAIN then Ok(Step(slot, SeekToCluster(g, next, cur.endReached), named))
            else Ok(Step(slot, cur.(pos := FatEntryPos(g, cur.cluster) + 4, endReached := true), named))
  }

  /** The result of `fat_read_entry`: the slot last read, the cursor, the name buffer, and the
      reads still allowed. */
  datatype Scanned = Scanned(slot: Slot, cur: Cursor, lfn: seq<u16>, fuel: nat)

  /** The do-while loop of `fat_read_entry`, from a given name buffer, with at most `fuel` slot
      reads. It returns only on a slot that is not a fragment or once the chain has ended. */
  function ReadSlots(g: Geometry, img: seq<u8>, cur: Cursor, lfn: seq<u16>, fuel: nat): (r: Result<Scanned, IoError>)
    requires |lfn| == LFN_BUFFER_LENGTH
    ensures r.Ok? ==> r.value.fuel < fuel && |r.value.lfn| == LFN_BUFFER_LENGTH
    ensures r.Ok? ==> Attributes(r.value.slot) != ATTR_LFN || r.value.cur.endReached
    decreases fuel
  {
    if fuel == 0 then Err(Exhausted)
    else match ReadStep(g, img, cur, lfn)
      case Err(e) => Err(e)
      case Ok(st) =>
        if Attributes(st.slot) == ATTR_LFN && !st.cur.endReached then ReadSlots(g, img, st.cur, st.lfn, fuel - 1)
        else Ok(Scanned(st.slot, st.cur, st.lfn, fuel - 1))
  }

  /** One pass of `fat_read_entry`'s loop, as the ways it can end. */
  lemma ReadSlotsStep(g: Geometry, img: seq<u8>, cur: Cursor, lfn: seq<u16>, fuel: nat)
    requires |lfn| == LFN_BUFFER_LENGTH
    ensures fuel == 0 ==> ReadSlots(g, img, cur, lfn, fuel) == Err(Exhausted)
    ensures fuel != 0 && ReadStep(g, img, cur, lfn).Err? ==>
              ReadSlots(g, img, cur, lfn, fuel) == Err(ReadStep(g, img, cur, lfn).error)
    ensures fuel != 0 && ReadStep(g, img, cur, lfn).Ok? ==>
              var st := ReadStep(g, img, cur, lfn).value;
              ReadSlots(g, img, cur, lfn, fuel) ==
                if Attributes(st.slot) == ATTR_LFN && !st.cur.endReached then ReadSlots(g, img, st.cur, st.lfn, fuel - 1)
                else Ok(Scanned(st.slot, st.cur, st.lfn, fuel - 1))
  {
  }

  /** `fat_read_entry`: the name buffer is cleared first. */
  function ReadEntry(g: Geometry, img: seq<u8>, cur: Cursor, fuel: nat): Result<Scanned, IoError>
  {
    ReadSlots(g, img, cur, EmptyLfn(), fuel)
  }

  /** When a fragment ends exactly at the cluster end, the FAT entry at `FatEntryPos` is read:
      the end-of-chain value sets the end flag, any other value (a bad-cluster marker included)
      moves the cursor to that cluster. */
  lemma FragmentAtClusterEnd(g: Geometry, img: seq<u8>, cur: Cursor, lfn: seq<u16>)
    requires |lfn| == LFN_BUFFER_LENGTH
    requires ReadStep(g, img, cur, lfn).Ok?
    requires Attributes(ReadStep(g, img, cur, lfn).value.slot) == ATTR_LFN
    requires cur.pos + SLOT_SIZE == cur.clusterEndPos
    ensures NextCluster(g, img, cur.cluster).Ok?
    ensures var next, st := NextCluster(g, img, cur.cluster).value, ReadStep(g, img, cur, lfn).value;
            && (next == FAT_END_OF_CHAIN ==> st.cur.endReached && st.cur.cluster == cur.cluster)
            && (next != FAT_END_OF_CHAIN ==> st.cur == SeekToCluster(g, next, cur.endReached))
  {
  }

  /** A short entry never triggers the cluster-end check: the cursor only moves past it, even
      when it is the last slot of the sector. */
  lemma ShortEntryStaysInPlace(g: Geometry, img: seq<u8>, cur: Cursor, lfn: seq<u16>)
    requires |lfn| == LFN_BUFFER_LENGTH
    requires ReadStep(g, img, cur, lfn).Ok?
    requires Attributes(ReadStep(g, img, cur, lfn).value.slot) != ATTR_LFN
    ensures ReadStep(g, img, cur, lfn).value.cur == cur.(pos := cur.pos + SLOT_SIZE)
    ensures ReadStep(g, img, cur, lfn).value.lfn == lfn
  {
  }

  /** The slot stored at `p`. */
  predicate SlotAt(img: seq<u8>, p: nat, e: Slot)
  {
    p + SLOT_SIZE <= |img| && img[p..p + SLOT_SIZE] == e
  }

  /** One fragment read away from the cluster end just advances and stores its units. */
  lemma ReadFragment(g: Geometry, img: seq<u8>, cur: Cursor, lfn: seq<u16>, f: Slot)
    requires |lfn| == LFN_BUFFER_LENGTH
    requires Attributes(f) == ATTR_LFN && SlotAt(img, cur.pos, f)
    requires cur.pos + SLOT_SIZE != cur.clusterEndPos
    ensures ReadStep(g, img, cur, lfn) == Ok(Step(f, cur.(pos := cur.pos + SLOT_SIZE), ApplyFragment(lfn, f)))
  {
  }

  /** A fragment away from the cluster end is stored and the loop goes on with the next slot. */
  lemma ReadFragmentThen(g: Geometry, img: seq<u8>, cur: Cursor, lfn: seq<u16>, fuel: nat, f: Slot)
    requires |lfn| == LFN_BUFFER_LENGTH
    requires Attributes(f) == ATTR_LFN && SlotAt(img, cur.pos, f)
    requires cur.pos + SLOT_SIZE != cur.clusterEndPos && !cur.endReached && 0 < fuel
    ensures ReadSlots(g, img, cur, lfn, fuel) ==
              ReadSlots(g, img, cur.(pos := cur.pos + SLOT_SIZE), ApplyFragment(lfn, f), fuel - 1)
  {
    ReadFragment(g, img, cur, lfn, f);
    ReadSlotsStep(g, img, cur, lfn, fuel);
  }

  /** A short entry ends the loop right away. */
  lemma ReadShortEntry(g: Geometry, img: seq<u8>, cur: Cursor, lfn: seq<u16>, fuel: nat, e: Slot)
    requires |lfn| == LFN_BUFFER_LENGTH
    requires Attributes(e) != ATTR_LFN && SlotAt(img, cur.pos, e) && 0 < fuel
    ensures ReadSlots(g, img, cur, lfn, fuel) == Ok(Scanned(e, cur.(pos := cur.pos + SLOT_SIZE), lfn, fuel - 1))
  {
    ReadSlotsStep(g, img, cur, lfn, fuel);
    assert img[cur.pos..cur.pos + SLOT_SIZE] == e;
  }

  /** The image holds, from `p` on, the fragments `frags` and then the short entry `e`, and no
      fragment ends at `clusterEnd`. */
  predicate RunAt(img: seq<u8>, p: nat, clusterEnd: int, frags: seq<Slot>, e: Slot)
    decreases |frags|
  {
    if frags == [] then Attributes(e) != ATTR_LFN && SlotAt(img, p, e)
    else && Attributes(frags[0]) == ATTR_LFN && SlotAt(img, p, frags[0]) && p + SLOT_SIZE != clusterEnd
         && RunAt(img, p + SLOT_SIZE, clusterEnd, frags[1..], e)
  }

  /** Reading a run of fragments followed by a short entry, with no fragment ending at the
      cluster end, returns that short entry and the buffer with every fragment applied, in
      arrival order. */
  lemma {:induction false} ReadRun(g: Geometry, img: seq<u8>, cur: Cursor, lfn: seq<u16>, fuel: nat,
                                   frags: seq<Slot>, e: Slot)
    requires |lfn| == LFN_BUFFER_LENGTH
    requires RunAt(img, cur.pos, cur.clusterEndPos, frags, e) && !cur.endReached
    requires |frags| < fuel
    ensures ReadSlots(g, img, cur, lfn, fuel) ==
              Ok(Scanned(e, cur.(pos := cur.pos + SLOT_SIZE * (|frags| + 1)), ApplyAll(lfn, frags), fuel - |frags| - 1))
    decreases |frags|
  {
    if frags == [] {
      ReadShortEntry(g, img, cur, lfn, fuel, e);
    } else {
      var f, rest := frags[0], frags[1..];
      var next := cur.(pos := cur.pos + SLOT_SIZE);
      ReadFragmentThen(g, img, cur, lfn, fuel, f);
      ReadRun(g, img, next, ApplyFragment(lfn, f), fuel - 1, rest, e);
      assert next.(pos := next.pos + SLOT_SIZE * (|rest| + 1)) == cur.(pos := cur.pos + SLOT_SIZE * (|frags| + 1));
    }
  }

  /** End to end for one entry with a long name: when the slots at the cursor are fragments
      with ordinals 1..k (in any order, the last one possibly padded) and then the short entry
      `e`, `fat_read_entry` returns `e`, and the name shown for it is the fragments' units in
      ordinal order up to their first NUL `n`, at most 255 units. */
  lemma LongNameEntry(g: Geometry, img: seq<u8>, cur: Cursor, fuel: nat, frags: seq<Slot>, k: nat, n: nat, e: Slot)
    requires RunAt(img, cur.pos, cur.clusterEndPos, frags, e) && !cur.endReached && |frags| < fuel
    requires 0 < k && OrdinalRun(frags, k)
    requires n <= k * LFN_CHARS_PER_ENTRY
    requires forall i :: 0 <= i < n ==> InOrder(frags, k)[i] != 0
    requires n < k * LFN_CHARS_PER_ENTRY ==> InOrder(frags, k)[n] == 0
    ensures ReadEntry(g, img, cur, fuel).Ok?
    ensures var sc := ReadEntry(g, img, cur, fuel).value;
            && sc.slot == e
            && sc.cur == cur.(pos := cur.pos + SLOT_SIZE * (k + 1))
            && (n > 0 ==> DisplayName(e, sc.lfn) == Long(InOrder(frags, k)[..if n < 255 then n else 255]))
            && (n == 0 ==> DisplayName(e, sc.lfn) == DisplayName(e, EmptyLfn()))
  {
    ReadRun(g, img, cur, EmptyLfn(), fuel, frags, e);
    ReassembledName(frags, k, n, e);
  }

  // ---------------------------------------------------------------------------------------
  // print_dir

  datatype Kind = LabelLine | DirLine | FileLine

  /** One line of the listing: its depth (`g_path_depth`), what is shown, and the short entry it
      was resolved from. A `DirLine` is the one followed by a path separator. */
  datatype Record = Record(depth: nat, kind: Kind, name: Name, entry: Slot)

  /** The outcome of walking a directory: the records in output order, the read failure that
      ended the walk if any, and the position and read allowance left. */
  datatype Walked = Walked(records: seq<Record>, failure: Option<IoError>, pos: nat, fuel: nat)

  /** What one pass of `print_dir`'s loop shows for entry `e`. */
  function Shown(e: Slot, lfn: seq<u16>, depth: nat): seq<Record>
  {
    if IsVolumeId(e) then [Record(depth, LabelLine, Short(VolumeLabel(e)), e)]
    else if IsRealDir(e) then [Record(depth, DirLine, DisplayName(e, lfn), e)]
    else if IsFile(e) then [Record(depth, FileLine, DisplayName(e, lfn), e)]
    else []
  }

  /** Entry `e` after it was shown: the name bytes are trimmed in place. */
  function AfterShow(e: Slot, lfn: seq<u16>): Slot
  {
    if IsVolumeId(e) then AfterVolumeLabel(e)
    else if IsRealDir(e) || IsFile(e) then AfterDisplay(e, lfn)
    else e
  }

  /** `print_dir` on the directory entry `e`, called with the image at `pos`: enter the
      directory, list it, and on a normal return seek back to `pos`. */
  function WalkDir(g: Geometry, img: seq<u8>, e: Slot, depth: nat, pos: nat, fuel: nat): (w: Walked)
    ensures w.fuel <= fuel
    ensures w.failure.None? ==> w.pos == pos
    decreases fuel, 1
  {
    var w := WalkEntries(g, img, SeekToCluster(g, StartCluster(e), false), depth, fuel);
    if w.failure.None? then w.(pos := pos) else w
  }

  /** The do-while loop of `print_dir` from cursor `cur`: read an entry, show it, descend into a
      real directory, and go on until an empty entry or the end of the chain. */
  function WalkEntries(g: Geometry, img: seq<u8>, cur: Cursor, depth: nat, fuel: nat): (w: Walked)
    ensures w.fuel <= fuel
    decreases fuel, 0
  {
    match ReadEntry(g, img, cur, fuel)
    case Err(err) => Walked([], Some(err), cur.pos, 0)
    case Ok(sc) =>
      var shown, after := Shown(sc.slot, sc.lfn, depth), AfterShow(sc.slot, sc.lfn);
      var child := Descend(g, img, sc, depth);
      if child.failure.Some? then Walked(shown + child.records, child.failure, child.pos, child.fuel)
      else if !IsEmpty(after) && !sc.cur.endReached then
        var rest := WalkEntries(g, img, sc.cur, depth, child.fuel);
        rest.(records := shown + child.records + rest.records)
      else Walked(shown + child.records, None, sc.cur.pos, child.fuel)
  }

  /** The child walk of one pass of `print_dir`'s loop: into a real directory, else none. */
  function Descend(g: Geometry, img: seq<u8>, sc: Scanned, depth: nat): (w: Walked)
    ensures w.fuel <= sc.fuel
    ensures w.failure.None? ==> w.pos == sc.cur.pos
    decreases sc.fuel, 2
  {
    if IsRealDir(sc.slot) then WalkDir(g, img, sc.slot, depth + 1, sc.cur.pos, sc.fuel)
    else Walked([], None, sc.cur.pos, sc.fuel)
  }

  /** One pass of `print_dir`'s loop, as the three ways it can end. */
  lemma WalkEntriesStep(g: Geometry, img: seq<u8>, cur: Cursor, depth: nat, fuel: nat)
    ensures ReadEntry(g, img, cur, fuel).Err? ==>
              WalkEntries(g, img, cur, depth, fuel) == Walked([], Some(ReadEntry(g, img, cur, fuel).error), cur.pos, 0)
    ensures ReadEntry(g, img, cur, fuel).Ok? ==>
              var sc := ReadEntry(g, img, cur, fuel).value;
              var child := Descend(g, img, sc, depth);
              var here := Shown(sc.slot, sc.lfn, depth) + child.records;
              var w := WalkEntries(g, img, cur, depth, fuel);
              && (child.failure.Some? ==> w.records == here && w.failure == child.failure)
              && (child.failure.None? && !IsEmpty(AfterShow(sc.slot, sc.lfn)) && !sc.cur.endReached ==>
                    var rest := WalkEntries(g, img, sc.cur, depth, child.fuel);
                    w == rest.(records := here + rest.records))
              && (child.failure.None? && (IsEmpty(AfterShow(sc.slot, sc.lfn)) || sc.cur.endReached) ==>
                    w == Walked(here, None, sc.cur.pos, child.fuel))
  {
  }

  // ---------------------------------------------------------------------------------------
  // Properties of the walk.

  /** A record's kind agrees with the classification of the entry it came from. */
  predicate Classified(r: Record)
  {
    match r.kind
    case LabelLine => IsVolumeId(r.entry)
    case DirLine => IsRealDir(r.entry)
    case FileLine => IsFile(r.entry)
  }

  predicate Sound(recs: seq<Record>)
  {
    forall i :: 0 <= i < |recs| ==> Classified(recs[i])
  }

  /** The records of a walk at depth `d`: none shallower than `d`, the first one at `d`, and a
      record deeper than its predecessor only one level deeper and only right after a
      directory line. */
  ghost predicate Nested(recs: seq<Record>, d: nat)
  {
    && (forall i :: 0 <= i < |recs| ==> recs[i].depth >= d)
    && (|recs| > 0 ==> recs[0].depth == d)
    && (forall i, j :: 0 <= i < j < |recs| && j == i + 1 ==> Follows(recs[i], recs[j]))
  }

  /** `next` may come right after `prev`: at most one level deeper, and deeper only after a
      directory line. */
  predicate Follows(prev: Record, next: Record)
  {
    next.depth <= prev.depth + 1 && (next.depth > prev.depth ==> prev.kind == DirLine)
  }

  lemma NestedConcat(a: seq<Record>, b: seq<Record>, d: nat)
    requires Nested(a, d) && Nested(b, d)
    ensures Nested(a + b, d)
  {
    var ab := a + b;
    forall i | 0 <= i < |ab|
      ensures ab[i].depth >= d
    {
      if i >= |a| {
        assert ab[i] == b[i - |a|];
      }
    }
    forall i, j | 0 <= i && j == i + 1 && j < |ab|
      ensures Follows(ab[i], ab[j])
    {
      if i >= |a| {
        assert ab[i] == b[i - |a|] && ab[j] == b[j - |a|];
      } else if j < |a| {
        assert ab[i] == a[i] && ab[j] == a[j];
      } else {
        assert ab[j] == b[0] && ab[i] == a[|a| - 1];
      }
    }
  }

  lemma NestedDescend(r: Record, b: seq<Record>, d: nat)
    requires r.depth == d && r.kind == DirLine && Nested(b, d + 1)
    ensures Nested([r] + b, d)
  {
    var rb := [r] + b;
    forall i, j | 0 <= i && j == i + 1 && j < |rb|
      ensures Follows(rb[i], rb[j])
    {
      if i > 0 {
        assert rb[i] == b[i - 1] && rb[j] == b[j - 1];
      }
    }
  }

  lemma SoundConcat(a: seq<Record>, b: seq<Record>)
    requires Sound(a) && Sound(b)
    ensures Sound(a + b)
  {
    forall i | 0 <= i < |a + b|
      ensures Classified((a + b)[i])
    {
      if i >= |a| {
        assert (a + b)[i] == b[i - |a|];
      }
    }
  }

  /** Shape of `print_dir`'s output: the records are nested (a deeper record follows a directory
      line and is exactly one level deeper) and each record's kind matches its entry's class.
      Which entries are descended into is `EntersOnlyRealDirs`. */
  lemma {:induction false} WalkDirShape(g: Geometry, img: seq<u8>, e: Slot, depth: nat, pos: nat, fuel: nat)
    ensures Nested(WalkDir(g, img, e, depth, pos, fuel).records, depth)
    ensures Sound(WalkDir(g, img, e, depth, pos, fuel).records)
    decreases fuel, 1
  {
    WalkEntriesShape(g, img, SeekToCluster(g, StartCluster(e), false), depth, fuel);
  }

  lemma {:induction false} WalkEntriesShape(g: Geometry, img: seq<u8>, cur: Cursor, depth: nat, fuel: nat)
    ensures Nested(WalkEntries(g, img, cur, depth, fuel).records, depth)
    ensures Sound(WalkEntries(g, img, cur, depth, fuel).records)
    decreases fuel, 0
  {
    match ReadEntry(g, img, cur, fuel)
    case Err(_) =>
    case Ok(sc) =>
      var shown := Shown(sc.slot, sc.lfn, depth);
      var after := AfterShow(sc.slot, sc.lfn);
      var child := Descend(g, img, sc, depth);
      var here := shown + child.records;
      ClassesExclusive(sc.slot);
      if IsRealDir(sc.slot) {
        WalkDirShape(g, img, sc.slot, depth + 1, sc.cur.pos, sc.fuel);
        NestedDescend(shown[0], child.records, depth);
        SoundConcat(shown, child.records);
      } else {
        assert here == shown;
      }
      assert Nested(here, depth) && Sound(here);
      if child.failure.None? && !IsEmpty(after) && !sc.cur.endReached {
        var rest := WalkEntries(g, img, sc.cur, depth, child.fuel);
        WalkEntriesShape(g, img, sc.cur, depth, child.fuel);
        NestedConcat(here, rest.records, depth);
        SoundConcat(here, rest.records);
        assert WalkEntries(g, img, cur, depth, fuel).records == here + rest.records;
      }
  }

  /** Only a real directory is entered. For any other entry (a label, a file, "." or "..", a
      deleted or empty slot) a pass shows at most that entry and reads nothing more: the walk
      stops, or goes on from the next slot with the reads left after `fat_read_entry`. For a
      real directory, its line is followed by the listing of that directory one level deeper. */
  lemma EntersOnlyRealDirs(g: Geometry, img: seq<u8>, cur: Cursor, depth: nat, fuel: nat)
    requires ReadEntry(g, img, cur, fuel).Ok?
    ensures var sc := ReadEntry(g, img, cur, fuel).value;
            var w := WalkEntries(g, img, cur, depth, fuel);
            var shown := Shown(sc.slot, sc.lfn, depth);
            && (!IsRealDir(sc.slot) && (IsEmpty(AfterShow(sc.slot, sc.lfn)) || sc.cur.endReached) ==>
                  w == Walked(shown, None, sc.cur.pos, sc.fuel))
            && (!IsRealDir(sc.slot) && !IsEmpty(AfterShow(sc.slot, sc.lfn)) && !sc.cur.endReached ==>
                  var rest := WalkEntries(g, img, sc.cur, depth, sc.fuel);
                  w == rest.(records := shown + rest.records))
            && (IsRealDir(sc.slot) ==>
                  var child := WalkDir(g, img, sc.slot, depth + 1, sc.cur.pos, sc.fuel);
                  && 1 + |child.records| <= |w.records|
                  && w.records[..1 + |child.records|] ==
                       [Record(depth, DirLine, DisplayName(sc.slot, sc.lfn), sc.slot)] + child.records)
  {
    var sc := ReadEntry(g, img, cur, fuel).value;
    var child := Descend(g, img, sc, depth);
    var here := Shown(sc.slot, sc.lfn, depth) + child.records;
    WalkEntriesStep(g, img, cur, depth, fuel);
    if IsRealDir(sc.slot) {
      ClassesExclusive(sc.slot);
      assert Shown(sc.slot, sc.lfn, depth) == [Record(depth, DirLine, DisplayName(sc.slot, sc.lfn), sc.slot)];
      assert WalkEntries(g, img, cur, depth, fuel).records[..|here|] == here;
    } else {
      assert child == Walked([], None, sc.cur.pos, sc.fuel);
      assert here == Shown(sc.slot, sc.lfn, depth);
    }
  }

  /** The loop stops right after an empty entry or once the chain has ended: nothing after that
      entry is read, and the walk ends normally. */
  lemma StopsAtEnd(g: Geometry, img: seq<u8>, cur: Cursor, depth: nat, fuel: nat)
    requires ReadEntry(g, img, cur, fuel).Ok?
    requires var sc := ReadEntry(g, img, cur, fuel).value;
             IsEmpty(sc.slot) || (sc.cur.endReached && !IsRealDir(sc.slot))
    ensures var sc := ReadEntry(g, img, cur, fuel).value;
            WalkEntries(g, img, cur, depth, fuel) == Walked(Shown(sc.slot, sc.lfn, depth), None, sc.cur.pos, sc.fuel)
  {
  }

  /** Quirk of the as-written loop test: an attribute-0 entry whose 8-byte name is all
      whitespace is listed as a file, and trimming its name in place makes it look empty, so the
      listing of that directory ends there. */
  lemma BlankNameEndsListing(g: Geometry, img: seq<u8>, cur: Cursor, depth: nat, fuel: nat)
    requires ReadEntry(g, img, cur, fuel).Ok?
    requires var sc := ReadEntry(g, img, cur, fuel).value;
             Attributes(sc.slot) == 0 && sc.lfn[0] == 0 && forall i :: 0 <= i < 8 ==> IsSpace(sc.slot[i])
    ensures var sc := ReadEntry(g, img, cur, fuel).value;
            && IsFile(sc.slot)
            && WalkEntries(g, img, cur, depth, fuel) ==
                 Walked([Record(depth, FileLine, DisplayName(sc.slot, sc.lfn), sc.slot)], None, sc.cur.pos, sc.fuel)
  {
    var sc := ReadEntry(g, img, cur, fuel).value;
    var name := FileName(sc.slot);
    TrimTrailingSpec(name);
    assert LastNonSpace(name) == -1;
    assert AfterShow(sc.slot, sc.lfn)[0] == TrimTrailing(name)[0] == NUL;
  }

  /** End to end: a directory whose first slot is a file's short entry (its name not starting
      with whitespace) and whose second slot is empty yields exactly one file line, reads no FAT
      entry and seeks back to where it was called. */
  lemma OneFileDirectory(g: Geometry, img: seq<u8>, e: Slot, f: Slot, empty: Slot, depth: nat, pos: nat, fuel: nat)
    requires 2 <= fuel
    requires var start := ClusterPos(g, StartCluster(e));
             SlotAt(img, start, f) && SlotAt(img, start + SLOT_SIZE, empty)
    requires IsFile(f) && Attributes(f) != ATTR_LFN && !IsSpace(f[0]) && IsEmpty(empty)
    ensures WalkDir(g, img, e, depth, pos, fuel) ==
              Walked([Record(depth, FileLine, DisplayName(f, EmptyLfn()), f)], None, pos, fuel - 2)
  {
    var cur := SeekToCluster(g, StartCluster(e), false);
    var cur1 := cur.(pos := cur.pos + SLOT_SIZE);
    var cur2 := cur1.(pos := cur1.pos + SLOT_SIZE);
    ReadShortEntry(g, img, cur, EmptyLfn(), fuel, f);
    assert ReadEntry(g, img, cur, fuel) == Ok(Scanned(f, cur1, EmptyLfn(), fuel - 1));
    ReadShortEntry(g, img, cur1, EmptyLfn(), fuel - 1, empty);
    assert ReadEntry(g, img, cur1, fuel - 1) == Ok(Scanned(empty, cur2, EmptyLfn(), fuel - 2));
    ClassesExclusive(f);
    ClassesExclusive(empty);
    var name := FileName(f);
    TrimTrailingSpec(name);
    assert AfterShow(f, EmptyLfn())[0] == f[0];
    var rec := Record(depth, FileLine, DisplayName(f, EmptyLfn()), f);
    assert Shown(f, EmptyLfn(), depth) == [rec];
    assert Shown(empty, EmptyLfn(), depth) == [];
    assert WalkEntries(g, img, cur1, depth, fuel - 1) == Walked([], None, cur2.pos, fuel - 2);
    assert WalkEntries(g, img, cur, depth, fuel) == Walked([rec], None, cur2.pos, fuel - 2);
  }
}
