/** One 32-byte directory slot read as a short (8.3) entry: its fields, the `fat_entry_is_*`
    classification, trailing-whitespace trimming and the choice of the name that is shown. */
module Entries {
  import opened Bytes

  const SLOT_SIZE: nat := 32

  /** The bytes of one directory slot (`fat_entry_t`, or `lfn_entry_t` over the same bytes). */
  type Slot = s: seq<u8> | |s| == SLOT_SIZE witness Zeros(SLOT_SIZE)

  const ATTR_VOLUME_ID: u8 := 0x08
  const ATTR_DIR: u8 := 0x10
  const ATTR_LFN: u8 := 0x0F

  const NUL: u8 := 0x00
  const SPACE: u8 := 0x20
  const DOT: u8 := 0x2E

  /** Field layout of `fat_entry_t`: name 0..8, extension 8..11, attributes 11,
      high cluster half 20..22, low cluster half 26..28. */
  function Attributes(e: Slot): u8 { e[11] }

  function FileName(e: Slot): seq<u8> { e[..8] }

  function Ext(e: Slot): seq<u8> { e[8..11] }

  /** `start_cluster | (uint32_t)start_cluster_high << 16`; the two halves occupy disjoint
      bits, so the OR is their sum. */
  function StartCluster(e: Slot): u32
  {
    LE16(e, 26) as int + LE16(e, 20) as int * 0x1_0000
  }

  // ---------------------------------------------------------------------------------------
  // Classification (`fat_entry_is_*`).

  predicate IsVolumeId(e: Slot)
  {
    Attributes(e) == ATTR_VOLUME_ID
  }

  predicate IsEmpty(e: Slot)
  {
    Attributes(e) == 0 && e[0] == NUL
  }

  predicate IsDir(e: Slot)
  {
    (Attributes(e) as bv8) & (ATTR_DIR as bv8) == ATTR_DIR as bv8 && Attributes(e) != ATTR_LFN
  }

  /** A directory whose name does not start with ". " or "..". */
  predicate IsRealDir(e: Slot)
  {
    IsDir(e) && e[..2] != [DOT, SPACE] && e[..2] != [DOT, DOT]
  }

  /** Neither the volume-id nor the directory bit, and a non-NUL first byte. A deleted entry
      (first byte 0xE5) passes this test. */
  predicate IsFile(e: Slot)
  {
    (Attributes(e) as bv8) & ((ATTR_VOLUME_ID as bv8) | (ATTR_DIR as bv8)) == 0 && e[0] != NUL
  }

  /** The classes are pairwise exclusive, and a long-name slot belongs to none of them. */
  lemma ClassesExclusive(e: Slot)
    ensures !(IsDir(e) && IsFile(e))
    ensures !(IsVolumeId(e) && IsDir(e)) && !(IsVolumeId(e) && IsFile(e))
    ensures Attributes(e) == ATTR_LFN ==> !IsVolumeId(e) && !IsDir(e) && !IsFile(e)
    ensures IsRealDir(e) ==> IsDir(e)
    ensures IsEmpty(e) ==> !IsVolumeId(e) && !IsDir(e) && !IsFile(e)
  {
  }

  /** The volume-id test looks for the exact attribute value 0x08, not for the bit: a slot with
      the volume-id bit and any other bit is neither a volume label nor a file. */
  lemma VolumeIdExact(e: Slot)
    ensures IsVolumeId(e) <==> Attributes(e) == 0x08
    ensures (Attributes(e) as bv8) & 0x08 != 0 && Attributes(e) != 0x08 ==> !IsVolumeId(e) && !IsFile(e)
  {
  }

  /** The "." and ".." entries of a directory are never real directories. */
  lemma DotEntriesNotReal(e: Slot)
    requires e[..2] == [DOT, SPACE] || e[..2] == [DOT, DOT]
    ensures !IsRealDir(e)
  {
  }

  // ---------------------------------------------------------------------------------------
  // The directory entry `fat_mount` gives the root.

  /** A zeroed entry with attributes `ATTR_DIR` and cluster `c` split into its 16-bit halves. */
  function DirEntryFor(c: u32): Slot
  {
    Zeros(11) + [ATTR_DIR] + Zeros(8) + Enc16(c / 0x1_0000) + Zeros(4) + Enc16(c % 0x1_0000) + Zeros(4)
  }

  /** Splitting the cluster into halves and joining them again gives it back, and the entry is
      a directory with attributes exactly `ATTR_DIR`. */
  lemma DirEntryRoundTrip(c: u32)
    ensures StartCluster(DirEntryFor(c)) == c
    ensures Attributes(DirEntryFor(c)) == ATTR_DIR
    ensures IsDir(DirEntryFor(c)) && !IsVolumeId(DirEntryFor(c)) && !IsFile(DirEntryFor(c))
  {
    var e := DirEntryFor(c);
    var hi, lo := Enc16(c / 0x1_0000), Enc16(c % 0x1_0000);
    assert e[20..22] == hi && e[26..28] == lo;
    assert e[20] == hi[0] && e[21] == hi[1];
    assert e[26] == lo[0] && e[27] == lo[1];
    assert LE16(e, 20) == LE16(hi, 0);
    assert LE16(e, 26) == LE16(lo, 0);
  }

  // ---------------------------------------------------------------------------------------
  // remove_trailing_spaces

  /** `isspace` in the C locale: space, tab, newline, vertical tab, form feed, carriage return. */
  predicate IsSpace(b: u8)
  {
    b == SPACE || 0x09 <= b <= 0x0D
  }

  /** Every whitespace byte of the trailing run replaced by NUL. */
  function TrimTrailing(s: seq<u8>): (r: seq<u8>)
    ensures |r| == |s|
  {
    if |s| == 0 || !IsSpace(s[|s| - 1]) then s else TrimTrailing(s[..|s| - 1]) + [NUL]
  }

  /** Index of the last byte that is not whitespace, or -1 if there is none. */
  function LastNonSpace(s: seq<u8>): (k: int)
    ensures -1 <= k < |s|
    ensures k >= 0 ==> !IsSpace(s[k])
    ensures forall i :: k < i < |s| ==> IsSpace(s[i])
  {
    if |s| == 0 then -1
    else if !IsSpace(s[|s| - 1]) then |s| - 1
    else LastNonSpace(s[..|s| - 1])
  }

  /** Trimming keeps every byte up to the last non-whitespace one and turns each byte after it
      (all of them whitespace) into NUL. */
  lemma {:induction false} TrimTrailingSpec(s: seq<u8>)
    ensures TrimTrailing(s) == s[..LastNonSpace(s) + 1] + Zeros(|s| - LastNonSpace(s) - 1)
  {
    if |s| > 0 && IsSpace(s[|s| - 1]) {
      var p := s[..|s| - 1];
      TrimTrailingSpec(p);
      assert p[..LastNonSpace(p) + 1] == s[..LastNonSpace(s) + 1];
      assert Zeros(|p| - LastNonSpace(p) - 1) + [NUL] == Zeros(|s| - LastNonSpace(s) - 1);
    } else {
      assert s[..|s|] == s;
    }
  }

  /** Trimming twice is trimming once. */
  lemma TrimTrailingIdempotent(s: seq<u8>)
    ensures TrimTrailing(TrimTrailing(s)) == TrimTrailing(s)
  {
    var t := TrimTrailing(s);
    if |s| > 0 && IsSpace(s[|s| - 1]) {
      assert t[|t| - 1] == NUL;
    }
  }

  /** `remove_trailing_spaces(str, length)`: walks back from `str[length - 1]` while the byte is
      whitespace and overwrites it with NUL. */
  method RemoveTrailingSpaces(str: array<u8>, length: nat)
    requires length <= str.Length
    modifies str
    ensures str[..length] == TrimTrailing(old(str[..length]))
    ensures str[length..] == old(str[length..])
  {
    var i: int := length - 1;
    while i >= 0 && IsSpace(str[i])
      invariant -1 <= i < length
      invariant str[..i + 1] == old(str[..i + 1])
      invariant str[i + 1..length] == Zeros(length - i - 1)
      invariant str[length..] == old(str[length..])
      invariant TrimTrailing(old(str[..length])) == TrimTrailing(old(str[..i + 1])) + Zeros(length - i - 1)
    {
      assert old(str[..i + 1])[..i] == old(str[..i]);
      str[i] := NUL;
      i := i - 1;
      assert Zeros(length - i - 2) + [NUL] == Zeros(length - i - 1);
    }
    assert str[..length] == str[..i + 1] + str[i + 1..length];
  }

  // ---------------------------------------------------------------------------------------
  // The name shown for an entry (`print_entry_name`, without the output formatting).

  /** What `%.8s`, `%.3s` and `%.11s` print, and the unit prefix handed to `%.255ls`: the elements
      before the first NUL, at most `max`. */
  function Strn<T(==)>(s: seq<T>, nul: T, max: nat): (r: seq<T>)
    ensures |r| <= max && |r| <= |s| && r == s[..|r|]
    ensures nul !in r
    ensures |r| < max && |r| < |s| ==> s[|r|] == nul
  {
    if max == 0 || |s| == 0 || s[0] == nul then [] else [s[0]] + Strn(s[1..], nul, max - 1)
  }

  /** A name as it is displayed: the reassembled UTF-16 long name, or bytes of the short name. */
  datatype Name = Long(units: seq<u16>) | Short(chars: seq<u8>)

  /** The long name when the buffer's first unit is not NUL (`wcslen(lfn) > 0`), else the
      trimmed 8-byte name, followed for non-directories by "." and the 3-byte extension. */
  function DisplayName(e: Slot, lfn: seq<u16>): Name
  {
    if |lfn| > 0 && lfn[0] != 0 then Long(Strn(lfn, 0, 255))
    else
      var name := Strn(TrimTrailing(FileName(e)), NUL, 8);
      if IsDir(e) then Short(name) else Short(name + [DOT] + Strn(Ext(e), NUL, 3))
  }

  /** The entry after `print_entry_name`: the 8-byte name is trimmed in place when it is shown. */
  function AfterDisplay(e: Slot, lfn: seq<u16>): Slot
  {
    if |lfn| > 0 && lfn[0] != 0 then e else TrimTrailing(FileName(e)) + e[8..]
  }

  /** The label `print_dir` shows for a volume-id entry: the 11 name bytes, trimmed. */
  function VolumeLabel(e: Slot): seq<u8>
  {
    Strn(TrimTrailing(e[..11]), NUL, 11)
  }

  /** The entry after the label was trimmed in place. */
  function AfterVolumeLabel(e: Slot): Slot
  {
    TrimTrailing(e[..11]) + e[11..]
  }

  /** `Strn` stops at the first NUL, or at `max`, whichever comes first. */
  lemma StrnStopsAt<T>(s: seq<T>, nul: T, max: nat, k: nat)
    requires k <= max && k <= |s| && nul !in s[..k] && (k < max && k < |s| ==> s[k] == nul)
    ensures Strn(s, nul, max) == s[..k]
  {
  }

  /** A NUL-free prefix padded with NULs reads back as that prefix. */
  lemma StrnOfPadded(p: seq<u8>, m: nat)
    requires NUL !in p
    ensures Strn(p + Zeros(m), NUL, |p| + m) == p
  {
    var t := p + Zeros(m);
    assert t[..|p|] == p;
    if m > 0 {
      assert t[|p|] == Zeros(m)[0];
    }
    StrnStopsAt(t, NUL, |p| + m, |p|);
  }

  /** Taking a prefix up to NUL of a trimmed NUL-free name gives the name without its trailing
      whitespace. */
  lemma StrnOfTrimmed(s: seq<u8>)
    requires NUL !in s
    ensures Strn(TrimTrailing(s), NUL, |s|) == s[..LastNonSpace(s) + 1]
  {
    TrimTrailingSpec(s);
    var k := LastNonSpace(s) + 1;
    assert NUL !in s[..k] by {
      forall i | 0 <= i < k
        ensures s[..k][i] != NUL
      {
        assert s[..k][i] == s[i];
      }
    }
    StrnOfPadded(s[..k], |s| - k);
  }

  /** The short name of a directory is its 8-byte name without trailing whitespace; that of any
      other entry adds "." and the extension up to its first NUL. The short name never ends in
      whitespace before the dot. */
  lemma ShortNameShape(e: Slot, lfn: seq<u16>)
    requires |lfn| == 0 || lfn[0] == 0
    requires NUL !in FileName(e)
    ensures var base := FileName(e)[..LastNonSpace(FileName(e)) + 1];
            DisplayName(e, lfn) == if IsDir(e) then Short(base) else Short(base + [DOT] + Strn(Ext(e), NUL, 3))
  {
    StrnOfTrimmed(FileName(e));
  }

  /** A non-empty long name wins over the short name, and it is the buffer up to its first NUL. */
  lemma LongNameWins(e: Slot, lfn: seq<u16>, n: nat)
    requires n <= |lfn| && n <= 255 && 0 < n
    requires forall i :: 0 <= i < n ==> lfn[i] != 0
    requires n < |lfn| ==> lfn[n] == 0
    ensures DisplayName(e, lfn) == Long(lfn[..n])
    ensures AfterDisplay(e, lfn) == e
  {
  }
}
