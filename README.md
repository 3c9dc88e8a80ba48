# parsefat in Dafny

parsefat lists the contents of a FAT32 disk image as a tree. It mounts the image by reading
a few fields of the boot sector (the BIOS Parameter Block). It then walks the root directory
cluster by cluster, depth first. Each 32-byte directory slot is either a long-file-name
fragment or a short (8.3) entry. Fragments are gathered into a 260-unit UTF-16 name buffer.
A short entry is shown as a volume label, a directory (listed recursively, one level deeper)
or a file. The listing of a directory stops at an empty entry or at the end of its cluster
chain.

This project models that core, all of it in `main.c`:

- `bytes.dfy` (`Bytes`): unsigned widths, 32-bit wrap-around, and little-endian decoding
  with encoders as inverses.
- `volume.dfy` (`Volume`): the boot-sector fields, the derived geometry, and the cluster and
  FAT-entry arithmetic in `uint32_t`.
- `entries.dfy` (`Entries`): the short-entry fields, the `fat_entry_is_*` classification,
  `remove_trailing_spaces`, and the choice of the name `print_entry_name` shows.
- `longnames.dfy` (`LongNames`): `lfn_put_data` and long-name reassembly.
- `scan.dfy` (`Scan`): `fat_read_entry` and `print_dir` as functions of the image bytes.
  `print_dir`'s output is a sequence of records of depth, kind (label, directory, file) and
  name.
- `handles.dfy` (`Handles`): the mutable side.
  - `Fat` is `fat_t` with its open stream. The stream position is a field.
  - `Dir` is `dir_t`, with the same fields.
  - `fat_read_entry`, `print_dir`, `print_entry_name` and `fat_mount` are methods over arrays
    and these objects. Each is proved to compute what the `Scan`, `Entries` and `Volume`
    functions describe.

Where the C code differs from the FAT32 standard, the model follows the code:

- `fat_get_next_cluster(c)` reads the FAT at `(c - 1) * 4`. The standard places entry `c` at
  `c * 4`.
- The "cluster end" that `dir_seek_to_cluster` records is one sector after the cluster start,
  not one cluster.
- The cluster-end check in `fat_read_entry` runs only after a long-name fragment. A short
  entry that is the last slot of a sector does not move the cursor to the next cluster.
- `fat_entry_is_file` does not exclude deleted entries (first byte 0xE5).
- `fat_entry_is_real_dir` does not exclude them either, so a deleted subdirectory is listed and
  descended into.
- A chain is followed for any FAT value other than exactly `0x0FFFFFFF`. Bad-cluster and
  other end-of-chain markers are followed too.

## Model

| member | source | states |
|---|---|---|
| Bytes.Wrap32 | main.c:82-89 | the `uint32_t` result of an unbounded value: the value itself when it is in range, and always congruent to it modulo 2^32 |
| Bytes.Enc16 | main.c:106-110 | two bytes whose little-endian reading is the given 16-bit value (the inverse of the `uint16_t` reads) |
| Bytes.Enc32 | main.c:111-114 | four bytes whose little-endian reading is the given 32-bit value (the inverse of the `uint32_t` reads) |
| Volume.ParseBootSector | main.c:106-123 | reading the BPB fields succeeds exactly when the image holds the bytes up to offset 0x30 |
| Volume.BootSectorRoundTrip | main.c:106-123 | decoding an encoded boot sector gives back every field: sector size, sectors per cluster, reserved sectors, FAT count, both sector counts, sectors per FAT, root cluster |
| Volume.Derive | main.c:125-126 | the geometry `fat_mount` keeps: the 16-bit sector count unless it is zero, the FAT start at the reserved count, the heap start as reserved + FATs * sectors per FAT in `uint32_t`; its properties are in `Volume.DeriveLayout` |
| Volume.DeriveLayout | main.c:125-126 | the FAT starts at the reserved-sector count; the cluster heap starts after `numFats * sectorsPerFat` more sectors whenever that sum fits in 32 bits; the root cluster is kept |
| Volume.ClusterLba | main.c:82-84 | `get_cluster_lba`: heap start plus `(c - 2) * sectorsPerCluster`, wrapped to 32 bits; see `Volume.ClusterPosExact` |
| Volume.ClusterPos | main.c:87-89 | `get_cluster_pos`: that sector times the sector size, wrapped to 32 bits; its closed form, stride and order are in `Volume.ClusterPosExact`, `Volume.ClusterStride` and `Volume.ClusterPosMonotone` |
| Volume.ClusterPosExact | main.c:82-89 | without wrap-around, `get_cluster_pos(c)` is the heap start in bytes plus `c - 2` clusters of `sectorsPerCluster * sectorSize` bytes |
| Volume.ClusterStride | main.c:82-89 | consecutive clusters are exactly one cluster size apart |
| Volume.ClusterPosMonotone | main.c:82-89 | cluster positions do not decrease with the cluster number, and cluster 2 starts the heap |
| Volume.FatEntryPos | main.c:168-169 | where `fat_get_next_cluster` seeks: the FAT byte start as a `uint32_t` product plus `(c - 1) * 4` with `c - 1` in `uint32_t`; see `Volume.FatEntryPosAsWritten` |
| Volume.FatEntryPosAsWritten | main.c:166-175 | the FAT read for cluster `c` is at the FAT's byte start plus `(c - 1) * 4`, which is 4 bytes before the standard's slot `c * 4` |
| Entries.IsVolumeId | main.c:239-241 | attributes exactly 0x08; see `Entries.VolumeIdExact` |
| Entries.IsEmpty | main.c:244-246 | attributes 0 and a NUL first name byte; see `Entries.ClassesExclusive` and `Scan.StopsAtEnd` |
| Entries.IsDir | main.c:249-251 | the 0x10 bit set and attributes other than 0x0F; see `Entries.ClassesExclusive` |
| Entries.IsRealDir | main.c:254-261 | a directory whose name starts with neither ". " nor ".."; see `Entries.DotEntriesNotReal` and `Scan.EntersOnlyRealDirs` |
| Entries.IsFile | main.c:264-266 | neither the 0x08 nor the 0x10 bit and a non-NUL first byte, deleted entries included; see `Entries.ClassesExclusive` |
| Entries.ClassesExclusive | main.c:239-266 | directory, file and volume label are mutually exclusive; a long-name slot and an empty entry are none of them; a real directory is a directory |
| Entries.VolumeIdExact | main.c:239-241 | the volume-label test is on the exact value 0x08, so a slot with that bit and another bit set is neither a label nor a file |
| Entries.DotEntriesNotReal | main.c:254-261 | entries named ". " or ".." are never real directories |
| Entries.DirEntryRoundTrip | main.c:129-134 | the root entry built at mount time splits the root cluster into 16-bit halves that join back to it, and has attributes exactly `ATTR_DIR` (a directory, not a label, not a file) |
| Entries.TrimTrailing | main.c:287-291 | keeps the length; the trailing whitespace run becomes NUL, as `Entries.TrimTrailingSpec` and `Entries.TrimTrailingIdempotent` state |
| Entries.LastNonSpace | main.c:287-291 | the index of the last non-whitespace byte: every byte after it is whitespace |
| Entries.TrimTrailingSpec | main.c:287-291 | trimming keeps every byte up to the last non-whitespace one and turns each byte of the trailing whitespace run, and only those, into NUL |
| Entries.TrimTrailingIdempotent | main.c:287-291 | trimming twice is trimming once |
| Entries.RemoveTrailingSpaces | main.c:287-291 | the loop leaves the first `length` bytes trimmed and every byte after them unchanged |
| Entries.Strn | main.c:294-316 | what `%.8s`, `%.3s` and `%.11s` print, and the unit prefix handed to `%.255ls`: the longest NUL-free prefix of at most `max` elements, stopping at a NUL when shorter than both |
| Entries.StrnOfTrimmed | main.c:302-307 | for a name with no NUL byte, the trimmed name printed with `%.8s` is the name without its trailing whitespace |
| Entries.ShortNameShape | main.c:302-308 | for an 8-byte name with no NUL byte and no long name, a directory shows its name without trailing whitespace, and any other entry adds "." and the extension up to its first NUL |
| Entries.LongNameWins | main.c:299-300 | when the buffer holds a non-empty name of at most 255 units, that name is shown and the short name is not trimmed |
| Entries.DisplayName | main.c:294-316 | the name `print_entry_name` shows: the buffer up to its first NUL (at most 255 units) when its first unit is not NUL, else the trimmed short name with "." and extension for non-directories; its cases are `Entries.ShortNameShape` and `Entries.LongNameWins` |
| LongNames.EmptyLfn | main.c:208 | the cleared buffer: 260 units, all NUL |
| LongNames.LfnPutData | main.c:189-200 | returns the start index plus half the data length; unit `i` of that range becomes the little-endian pair at `2 * (i - start)`, with 0xFFFF stored as NUL; every other unit of the buffer is unchanged |
| LongNames.ApplyFragment | main.c:213-223 | the buffer after one fragment: the ordinal check, then 5 + 6 + 2 units stored from `(ordinal - 1) * 13`; what it writes is `LongNames.ApplyFragmentAt` |
| LongNames.ApplyFragmentAt | main.c:213-223 | a deleted fragment, or one with ordinal 0 or above 20, leaves the buffer unchanged; any other writes exactly units `(ordinal - 1) * 13` up to `ordinal * 13`, inside the 260-unit buffer, with its own 13 units in order and 0xFFFF as NUL |
| LongNames.FragmentsCommute | main.c:213-223 | two fragments with different ordinals give the same buffer in either order |
| LongNames.PutFragment | main.c:213-223 | the ordinal check and the three `lfn_put_data` calls leave the buffer as `ApplyFragment` describes |
| LongNames.ApplyAllAt | main.c:210-235 | with distinct ordinals, each unit of the buffer comes from the one fragment that covers it, whatever the arrival order, or keeps its old value |
| LongNames.InOrder | main.c:210-235 | the fragments' units (0xFFFF read as NUL) concatenated in ordinal order 1..k, defined without the buffer; unit `i` is unit `i % 13` of ordinal `i / 13 + 1` (`LongNames.InOrderAt`, `LongNames.UnitsOfAt`) |
| LongNames.InOrderAt | main.c:210-235 | unit `i` of the concatenation is unit `i % 13` of the fragment with ordinal `i / 13 + 1` |
| LongNames.UnitsOfAt | main.c:213-223 | with distinct ordinals, an accepted fragment is the one found for its ordinal |
| LongNames.RunBuffer | main.c:208-235 | after fragments with ordinals 1..k in any order, NUL units and padding included, the buffer's first `13 * k` units are their ordinal-order concatenation and the rest stay NUL |
| LongNames.ReassembledName | main.c:210-235 | after fragments with ordinals 1..k in any order, the name shown is their ordinal-order concatenation cut at its first NUL (0xFFFF read as NUL, so a padded last fragment is cut there) and at 255 units; a concatenation starting with NUL leaves the short name |
| Scan.SeekToCluster | main.c:178-186 | the recorded cluster end is one sector after the new position |
| Scan.NextCluster | main.c:166-175 | the FAT entry is read exactly when 4 bytes at `FatEntryPos` are in the image |
| Scan.ReadStep | main.c:211-233 | one pass of the loop body: read a slot; for a fragment, store its units and, at the cluster end, read the FAT and seek or set the end flag; see `Scan.FragmentAtClusterEnd` and `Scan.ShortEntryStaysInPlace` |
| Scan.ReadSlots | main.c:210-235 | the loop returns only on a slot that is not a long-name fragment, or once the chain has ended, and consumes at least one read |
| Scan.FragmentAtClusterEnd | main.c:225-233 | a fragment that ends at the cluster end reads the FAT: the end-of-chain value sets the end flag, and any other value moves the cursor to that cluster |
| Scan.ShortEntryStaysInPlace | main.c:212-235 | a short entry only advances the cursor by 32 bytes, even at a sector end, and leaves the name buffer alone |
| Scan.ReadShortEntry | main.c:210-235 | a short entry at the cursor ends the loop right away and is returned |
| Scan.ReadEntry | main.c:203-236 | `fat_read_entry`: the loop run from a cleared buffer; see `Scan.ReadRun` and `Scan.LongNameEntry` |
| Scan.ReadRun | main.c:208-235 | a run of fragments followed by a short entry, none ending at the cluster end, returns that short entry 32 bytes past the last fragment, with every fragment applied to the buffer in arrival order |
| Scan.LongNameEntry | main.c:203-236 | fragments with ordinals 1..k (in any order, the last possibly padded) and then a short entry read back as that entry, 32 bytes past it, with the name shown being the fragments' units in ordinal order up to the first NUL, at most 255 units |
| Scan.WalkDir | main.c:319-347 | the walk uses no more reads than it is given, and on a normal return the position is back where `print_dir` was called |
| Scan.Descend | main.c:332-340 | only a real directory is listed; on a normal return the position is back after its entry |
| Scan.WalkEntries | main.c:326-343 | the loop of `print_dir` from a cursor: read, show, descend through `Scan.Descend`, go on until an empty entry or the chain end; see `Scan.WalkEntriesShape`, `Scan.EntersOnlyRealDirs` and `Scan.StopsAtEnd` |
| Scan.WalkDirShape | main.c:319-347 | the records are nested: a deeper record follows a directory line and is exactly one level deeper; each record's kind matches its entry's class |
| Scan.WalkEntriesShape | main.c:326-343 | the same nesting and classification for the loop from any cursor |
| Scan.EntersOnlyRealDirs | main.c:329-343 | an entry that is not a real directory ("." and ".." included, by `Entries.DotEntriesNotReal`) adds at most its own line and reads nothing more before the next slot; a real directory's line is followed by its own listing one level deeper |
| Scan.StopsAtEnd | main.c:343 | after an empty entry, or at the end of the chain on an entry that is not a real directory, nothing more is read and the walk ends normally |
| Scan.BlankNameEndsListing | main.c:287-291 | an attribute-0 entry whose 8-byte name is all whitespace is listed as a file, and its trimmed name then makes it look empty, so the listing of that directory ends there |
| Scan.OneFileDirectory | main.c:319-347 | a directory holding one file's short entry and then an empty entry yields exactly one file line at the directory's depth, and the position is restored |
| Handles.Fat.constructor | main.c:59-66 | a handle on the image with the given geometry, position and read allowance |
| Handles.Fat.Seek | main.c:156-163 | the position becomes the target |
| Handles.Fat.ReadSlot | main.c:145-153 | with reads left and 32 bytes available, copies them and advances the position by 32; otherwise reports the failure and changes nothing |
| Handles.Fat.NextCluster | main.c:166-175 | returns the 32-bit FAT entry `Scan.NextCluster` describes and leaves the position right after it |
| Handles.Dir.constructor | main.c:333-336 | a `dir_t` zeroed apart from its FAT handle and entry |
| Handles.Dir.SeekToCluster | main.c:178-186 | the cursor becomes the cluster's start, with the cluster end one sector later |
| Handles.Dir.FollowChain | main.c:225-233 | away from the cluster end nothing changes; at it, the FAT is read and the cursor moves to the next cluster, or the end flag is set |
| Handles.Dir.ReadOne | main.c:211-233 | one pass of the loop body computes `Scan.ReadStep`'s slot, cursor and buffer |
| Handles.Dir.ReadEntry | main.c:203-236 | clears the name buffer, then reads until a short entry or the chain's end; the slot, buffer, cursor and reads left are those of `Scan.ReadEntry` |
| Handles.Dir.Enter | main.c:269-279 | remembers the current position and moves to the directory's first cluster with the end flag cleared |
| Handles.Dir.Leave | main.c:282-284 | the position goes back to the remembered one |
| Handles.Dir.ShowEntry | main.c:329-342 | shows the label, a real directory (then lists it one level deeper) or a file, as `Scan.Shown` and the child walk describe, trimming the name in place |
| Handles.Dir.Pass | main.c:326-343 | one pass of the loop is the first step of `Scan.WalkEntries`, and tells whether the loop goes on |
| Handles.Dir.Print | main.c:319-347 | the records and failure are those of `Scan.WalkDir`, and on a normal return the position is restored |
| Handles.PrintEntryName | main.c:294-316 | the name shown is `DisplayName` of the entry as it was, and the entry is left as `AfterDisplay` says |
| Handles.Mount | main.c:92-137 | an image shorter than the BPB fields is refused; otherwise the geometry is the derived one, the position is where the last read stopped, and the root entry is a directory on the root cluster |

## Left out

- Opening and closing the image (`fopen`, `fclose`, `fat_unmount`) and `main`'s argument check are not modelled. The image is a byte sequence given to `Mount`.
- The `perror` plus `exit` paths of `fat_read` are modelled as an `IoError` result that ends the walk. Records produced before the failure are kept, as the lines already printed would be.
- The error exit of `fat_seek` (a seek failure, such as on a non-seekable image) is not modelled: `Fat.Seek` always succeeds.
- Output formatting is not modelled: `printf`, `putchar`, the indentation by `g_path_depth`, the trailing backslash after a directory name, the colon and blank line after the label, and the wide-character conversion of `%ls`. The model produces records of depth, kind and name instead.
- `g_path_depth` is passed as a `depth` parameter instead of a global counter.
- `wchar_t` is modelled as a 16-bit unit, which is all that `lfn_put_data` ever stores.
- The model has a bound on the number of slot reads, a `budget` that ends the walk with `Exhausted`. The C program has no guard against a cluster chain that loops and would run forever.
- Handles.Mount: an image shorter than the BPB fields is refused with `Truncated`. In C the unchecked `fread` calls just leave those fields at zero or unread.
- Only FAT32 is modelled. FAT12 and FAT16 root directories and FAT entry widths are not handled by the program either.
- The long-name checksum is not checked, by the program or the model.
- Scan.ReadRun: describes runs in which no fragment ends exactly at a cluster end. Runs that do are covered one step at a time by Scan.FragmentAtClusterEnd.
- Scan.LongNameEntry: like Scan.ReadRun, covers runs in which no fragment ends exactly at a cluster end.
- Entries.LongNameWins: requires the name to end with a NUL within 255 units, or to fill a buffer of at most 255 units. Longer names are described only through `Strn`.
- Entries.DisplayName, Entries.LongNameWins, LongNames.ReassembledName: twenty accepted fragments without a NUL or 0xFFFF unit fill all 260 units of the buffer, and `wcslen` at main.c:299 then reads past the array. The program's behaviour is undefined there. The model does not capture that: it shows the first 255 units.
